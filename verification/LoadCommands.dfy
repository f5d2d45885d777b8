/**
 The walk over a Mach-O image's load commands that finds its UUID (platform/darwin/graft_probe.c:187-212).
 The declared command area is a byte string of its own, so every index below is an access inside that area.
 */
module LoadCommands {
  import opened Bytes
  import opened Options

  const LC_UUID: int := 0x1B

  /** One load command: its kind, and all its bytes, header included. */
  datatype Command = Command(kind: int, bytes: seq<Byte>) {
    /** What the walk accepts at some place of the area. */
    ghost predicate WellFormed() {
      && 8 <= |bytes| < TWO_TO_THE_32
      && U32(bytes, 0) == kind && U32(bytes, 4) == |bytes|
    }

    predicate HasUuid() {
      kind == LC_UUID && |bytes| >= 24
    }
  }

  /** The first `count` commands, up to the first that does not fit. */
  function Commands(area: seq<Byte>, count: nat): (commands: seq<Command>)
    decreases count
  {
    if count == 0 || |area| < 8 then []
    else
      var size := U32(area, 4);
      if size < 8 || size > |area| then []
      else [Command(U32(area, 0), area[..size])] + Commands(area[size..], count - 1)
  }

  function Joined(commands: seq<Command>): seq<Byte> {
    if commands == [] then [] else commands[0].bytes + Joined(commands[1..])
  }

  /** The UUID of the first command that carries one. */
  function FirstUuid(commands: seq<Command>): (r: Option<seq<Byte>>)
    ensures r.Some? ==> |r.value| == 16
  {
    if commands == [] then None
    else if commands[0].HasUuid() then Some(commands[0].bytes[8..24])
    else FirstUuid(commands[1..])
  }

  lemma SuffixField(area: seq<Byte>, cursor: nat, at: nat)
    requires cursor + at + 4 <= |area|
    ensures U32(area[cursor..], at) == U32(area, cursor + at)
  {
    SliceFields(area, cursor, |area|);
    assert area[cursor..] == area[cursor..|area|];
  }

  lemma PrefixField(area: seq<Byte>, size: nat, at: nat)
    requires at + 4 <= size <= |area|
    ensures U32(area[..size], at) == U32(area, at)
  {
    SliceFields(area, 0, size);
    assert area[..size] == area[0..size];
  }

  // ---- The walk ----

  /** What is left to find from `cursor` on. */
  ghost function UuidFrom(area: seq<Byte>, cursor: nat, count: nat): Option<seq<Byte>>
    requires cursor <= |area|
  {
    FirstUuid(Commands(area[cursor..], count))
  }

  /** One step of the walk. */
  lemma UuidFromStep(area: seq<Byte>, cursor: nat, count: nat)
    requires cursor + 8 <= |area| && count > 0
    ensures var kind, size := U32(area, cursor), U32(area, cursor + 4);
            UuidFrom(area, cursor, count)
            == if size < 8 || size > |area| - cursor then None
               else if kind == LC_UUID && size >= 24 then Some(area[cursor + 8..cursor + 24])
               else UuidFrom(area, cursor + size, count - 1)
  {
    var rest := area[cursor..];
    SuffixField(area, cursor, 0);
    SuffixField(area, cursor, 4);
    var kind, size := U32(rest, 0), U32(rest, 4);
    if 8 <= size <= |rest| {
      assert Commands(rest, count) == [Command(kind, rest[..size])] + Commands(rest[size..], count - 1);
      assert rest[size..] == area[cursor + size..];
      if kind == LC_UUID && size >= 24 {
        assert rest[..size][8..24] == area[cursor + 8..cursor + 24];
      }
    }
  }

  /** The loop of `binary_uuid`: walks `count` commands in the declared area. */
  method Walk(area: seq<Byte>, count: nat) returns (r: Option<seq<Byte>>)
    ensures r == FirstUuid(Commands(area, count))
  {
    var cursor := 0;
    ghost var wanted := UuidFrom(area, 0, count);
    for index := 0 to count
      invariant 8 * index <= cursor <= |area|
      invariant wanted == UuidFrom(area, cursor, count - index)
    {
      if |area| - cursor < 8 {
        break;
      }
      UuidFromStep(area, cursor, count - index);
      var kind, size := U32(area, cursor), U32(area, cursor + 4);
      if size < 8 || size > |area| - cursor {
        break;
      }
      if kind == LC_UUID && size >= 24 {
        r := Some(area[cursor + 8..cursor + 24]);
        assert area[0..] == area;
        return;
      }
      cursor := cursor + size;
    }
    assert area[0..] == area;
    return None;
  }

  /**
   `binary_uuid`. The image header is 32 bytes; its magic is at 0, its command count at 16, and the size of the command
   area at 20. The loader maps the whole area after the header.
   */
  method BinaryUuid(image: Option<seq<Byte>>) returns (text: string)
    requires image.Some? ==> |image.value| >= 32 && 32 + U32(image.value, 20) <= |image.value|
    ensures text == match UuidOf(image) case Some(u) => UuidText(u) case None => UNAVAILABLE
  {
    if image.None? || U32(image.value, 0) != MH_MAGIC_64 {
      return UNAVAILABLE;
    }
    var found := Walk(image.value[32..32 + U32(image.value, 20)], U32(image.value, 16));
    text := if found.Some? then UuidText(found.value) else UNAVAILABLE;
  }

  const MH_MAGIC_64: int := 0xFEEDFACF
  const UNAVAILABLE: string := "unavailable"

  function UuidOf(image: Option<seq<Byte>>): Option<seq<Byte>>
    requires image.Some? ==> |image.value| >= 32 && 32 + U32(image.value, 20) <= |image.value|
  {
    if image.None? || U32(image.value, 0) != MH_MAGIC_64 then None
    else FirstUuid(Commands(image.value[32..32 + U32(image.value, 20)], U32(image.value, 16)))
  }

  /** The fields of a `mach_header_64` that the walk uses, and the command area behind it. */
  ghost predicate ImageOf(image: seq<Byte>, magic: int, count: int, area: seq<Byte>) {
    && |image| >= 32 + |area|
    && Stores(image, 0, magic, 4) && Stores(image, 16, count, 4) && Stores(image, 20, |area|, 4)
    && image[32..32 + |area|] == area
  }

  /** Behind the right magic, the UUID is looked for among `count` commands of the area. */
  lemma ImageReads(image: seq<Byte>, magic: int, count: nat, area: seq<Byte>)
    requires ImageOf(image, magic, count, area)
    ensures 32 + U32(image, 20) <= |image|
    ensures UuidOf(Some(image)) == if magic == 0xFEED_FACF then FirstUuid(Commands(area, count)) else None
  {
    StoredIsRead(image, 0, magic);
    StoredIsRead(image, 16, count);
    StoredIsRead(image, 20, |area|);
  }

  // ---- What the commands are ----

  /** The commands are disjoint and follow each other from the start of the area. */
  lemma {:induction false} CommandsTileTheArea(area: seq<Byte>, count: nat)
    ensures var commands := Commands(area, count);
            && |commands| <= count && 8 * |commands| <= |Joined(commands)| <= |area|
            && Joined(commands) == area[..|Joined(commands)|]
    decreases count
  {
    if count > 0 && |area| >= 8 {
      var size := U32(area, 4);
      if 8 <= size <= |area| {
        CommandsTileTheArea(area[size..], count - 1);
        ConsJoined(area, size, Command(U32(area, 0), area[..size]), Commands(area[size..], count - 1));
      }
    }
  }

  ghost predicate AllWellFormed(commands: seq<Command>) {
    forall i :: 0 <= i < |commands| ==> commands[i].WellFormed()
  }

  lemma ConsWellFormed(first: Command, rest: seq<Command>)
    requires first.WellFormed() && AllWellFormed(rest)
    ensures AllWellFormed([first] + rest)
  {
  }

  /** Each command is of the kind and the length that its own bytes say. */
  lemma {:induction false} CommandsAreWellFormed(area: seq<Byte>, count: nat)
    ensures AllWellFormed(Commands(area, count))
    decreases count
  {
    if count > 0 && |area| >= 8 {
      var size := U32(area, 4);
      if 8 <= size <= |area| {
        CommandsAreWellFormed(area[size..], count - 1);
        FirstIsWellFormed(area, size);
        ConsWellFormed(Command(U32(area, 0), area[..size]), Commands(area[size..], count - 1));
      }
    }
  }

  lemma FirstIsWellFormed(area: seq<Byte>, size: nat)
    requires 8 <= size <= |area| && U32(area, 4) == size
    ensures Command(U32(area, 0), area[..size]).WellFormed()
  {
    PrefixField(area, size, 0);
    PrefixField(area, size, 4);
  }

  lemma ConsJoined(area: seq<Byte>, size: nat, first: Command, rest: seq<Command>)
    requires size <= |area| && first.bytes == area[..size]
    requires |Joined(rest)| <= |area| - size && Joined(rest) == area[size..][..|Joined(rest)|]
    ensures |Joined([first] + rest)| == size + |Joined(rest)|
    ensures Joined([first] + rest) == area[..size + |Joined(rest)|]
  {
    assert ([first] + rest)[1..] == rest;
    assert area[..size + |Joined(rest)|] == area[..size] + area[size..][..|Joined(rest)|];
  }

  /** The list is cut short only by the count or by bytes that are no command. */
  lemma {:induction false} CommandsStopWhereTheyMust(area: seq<Byte>, count: nat)
    ensures var commands := Commands(area, count);
            var rest := area[Min(|Joined(commands)|, |area|)..];
            |commands| == count || |rest| < 8 || !(8 <= U32(rest, 4) <= |rest|)
    decreases count
  {
    if count > 0 && |area| >= 8 {
      var size := U32(area, 4);
      if 8 <= size <= |area| {
        CommandsStopWhereTheyMust(area[size..], count - 1);
        CommandsTileTheArea(area[size..], count - 1);
        var commands := Commands(area, count);
        assert commands[1..] == Commands(area[size..], count - 1);
        assert area[|Joined(commands)|..] == area[size..][|Joined(commands[1..])|..];
      }
    }
  }

  /** Well-formed commands laid out one after another are read back, whatever stands behind them. */
  lemma {:induction false} CommandsReadBack(commands: seq<Command>, tail: seq<Byte>)
    requires AllWellFormed(commands)
    ensures Commands(Joined(commands) + tail, |commands|) == commands
  {
    if commands != [] {
      var first, rest := commands[0], commands[1..];
      var area := Joined(commands) + tail;
      var size := |first.bytes|;
      assert area == first.bytes + (Joined(rest) + tail);
      assert area[..size] == first.bytes && area[size..] == Joined(rest) + tail;
      PrefixField(area, size, 0);
      PrefixField(area, size, 4);
      CommandsReadBack(rest, tail);
      assert commands == [first] + rest;
    }
  }

  /** The UUID reported is the one of the first command that has one. */
  lemma {:induction false} FirstUuidIsFirst(commands: seq<Command>)
    ensures FirstUuid(commands).None? <==>
              forall i :: 0 <= i < |commands| ==> !(commands[i].kind == 0x1B && |commands[i].bytes| >= 24)
    ensures forall i :: 0 <= i < |commands| && commands[i].kind == 0x1B && |commands[i].bytes| >= 24
                        && (forall j :: 0 <= j < i ==> !(commands[j].kind == 0x1B && |commands[j].bytes| >= 24))
                        ==> FirstUuid(commands) == Some(commands[i].bytes[8..24])
  {
    if commands != [] {
      FirstUuidIsFirst(commands[1..]);
      assert forall i :: 0 < i < |commands| ==> commands[i] == commands[1..][i - 1];
      forall i | 0 <= i < |commands| && commands[i].HasUuid() && (forall j :: 0 <= j < i ==> !commands[j].HasUuid())
        ensures FirstUuid(commands) == Some(commands[i].bytes[8..24])
      {
        if i > 0 {
          assert forall j :: 0 <= j < i - 1 ==> commands[1..][j] == commands[j + 1];
          assert commands[1..][i - 1].HasUuid();
        }
      }
    }
  }

  // ---- The text ----

  function HexDigit(n: int): char
    requires 0 <= n < 16
  {
    if n < 10 then '0' + n as char else 'A' + (n - 10) as char
  }

  /** `%02X` for each byte. */
  function Hex(b: seq<Byte>): (s: string)
    ensures |s| == 2 * |b|
  {
    if b == [] then "" else [HexDigit(b[0] / 16), HexDigit(b[0] % 16)] + Hex(b[1..])
  }

  /** Each byte gives two upper-case digits, the high one first. */
  lemma {:induction false} HexByDigits(b: seq<Byte>, i: nat)
    requires i < |b|
    ensures Hex(b)[2 * i] == "0123456789ABCDEF"[b[i] / 16] && Hex(b)[2 * i + 1] == "0123456789ABCDEF"[b[i] % 16]
  {
    if i == 0 {
      DigitReadBack(b[0] / 16);
      DigitReadBack(b[0] % 16);
    } else {
      HexByDigits(b[1..], i - 1);
      assert Hex(b)[2..] == Hex(b[1..]);
    }
  }

  /** The 8-4-4-4-12 form of RFC 9562, section 4, in upper case. */
  function UuidText(u: seq<Byte>): (s: string)
    requires |u| == 16
    ensures |s| == 36
  {
    Hex(u[..4]) + "-" + Hex(u[4..6]) + "-" + Hex(u[6..8]) + "-" + Hex(u[8..10]) + "-" + Hex(u[10..])
  }

  function DigitValue(c: char): Option<Byte> {
    if '0' <= c <= '9' then Some((c - '0') as int)
    else if 'A' <= c <= 'F' then Some((c - 'A') as int + 10)
    else None
  }

  function ParseHex(s: string): Option<seq<Byte>> {
    if s == "" then Some([])
    else if |s| == 1 then None
    else
      var high, low, rest := DigitValue(s[0]), DigitValue(s[1]), ParseHex(s[2..]);
      if high.None? || low.None? || rest.None? || high.value >= 16 || low.value >= 16 then None
      else Some([16 * high.value + low.value] + rest.value)
  }

  /** Reads the 8-4-4-4-12 form. */
  function ParseUuid(s: string): Option<seq<Byte>> {
    if |s| != 36 || s[8] != '-' || s[13] != '-' || s[18] != '-' || s[23] != '-' then None
    else ParseHex(s[..8] + s[9..13] + s[14..18] + s[19..23] + s[24..])
  }

  lemma DigitReadBack(n: int)
    requires 0 <= n < 16
    ensures DigitValue(HexDigit(n)) == Some(n)
    ensures HexDigit(n) == "0123456789ABCDEF"[n]
  {
  }

  lemma {:induction false} ParseHexOfHex(b: seq<Byte>)
    ensures ParseHex(Hex(b)) == Some(b)
  {
    if b != [] {
      ParseHexOfHex(b[1..]);
      DigitReadBack(b[0] / 16);
      DigitReadBack(b[0] % 16);
      assert Hex(b)[2..] == Hex(b[1..]);
      assert b == [b[0]] + b[1..];
    }
  }

  lemma {:induction false} HexConcat(a: seq<Byte>, b: seq<Byte>)
    ensures Hex(a + b) == Hex(a) + Hex(b)
  {
    if a == [] {
      assert a + b == b;
    } else {
      HexConcat(a[1..], b);
      assert (a + b)[1..] == a[1..] + b;
      Texts([HexDigit(a[0] / 16), HexDigit(a[0] % 16)], Hex(a[1..]), Hex(b));
    }
  }

  lemma Texts(a: string, b: string, c: string)
    ensures a + (b + c) == a + b + c
  {
  }

  lemma HexParts(u: seq<Byte>)
    requires |u| == 16
    ensures Hex(u[..4]) + Hex(u[4..6]) + Hex(u[6..8]) + Hex(u[8..10]) + Hex(u[10..]) == Hex(u)
  {
    HexConcat(u[..4], u[4..6]);
    HexConcat(u[..4] + u[4..6], u[6..8]);
    HexConcat(u[..4] + u[4..6] + u[6..8], u[8..10]);
    HexConcat(u[..4] + u[4..6] + u[6..8] + u[8..10], u[10..]);
    assert u[..4] + u[4..6] + u[6..8] + u[8..10] + u[10..] == u;
  }

  /** Taking the hyphens out again. */
  lemma Unhyphenated(a: string, b: string, c: string, e: string, f: string)
    requires |a| == 8 && |b| == 4 && |c| == 4 && |e| == 4 && |f| == 12
    ensures var s := a + "-" + b + "-" + c + "-" + e + "-" + f;
            && |s| == 36 && s[8] == '-' && s[13] == '-' && s[18] == '-' && s[23] == '-'
            && s[..8] == a && s[9..13] == b && s[14..18] == c && s[19..23] == e && s[24..] == f
  {
  }

  /** The text of a UUID parses back to its 16 bytes, so different UUIDs have different texts. */
  lemma ParseUuidOfText(u: seq<Byte>)
    requires |u| == 16
    ensures ParseUuid(UuidText(u)) == Some(u)
    ensures var s := UuidText(u);
            && s[8] == s[13] == s[18] == s[23] == '-'
            && s[..8] + s[9..13] + s[14..18] + s[19..23] + s[24..] == Hex(u)
  {
    Unhyphenated(Hex(u[..4]), Hex(u[4..6]), Hex(u[6..8]), Hex(u[8..10]), Hex(u[10..]));
    HexParts(u);
    ParseHexOfHex(u);
  }
}
