/**
 * The integer-valued tail of the filter's one-line report for a frame: the aggregate
 * field `checksum:%08X `, then on the same line the plane list `plane_checksums: [ `,
 * one `%08X ` per plane in plane order and `]\n`, whose newline is the only one of the
 * report. The parsers are the partners that show nothing is lost or reordered.
 */
module ReportText {
  import opened Common
  import opened Hex

  const ChecksumTag: string := "checksum:"
  const PlaneOpen: string := "plane_checksums: [ "
  const PlaneClose: string := "]\n"

  /** The aggregate checksum field; the plane list follows it on the same line. */
  function ChecksumField(c: uint32): (s: string)
    ensures |s| == |ChecksumTag| + 9
    ensures s[..|ChecksumTag|] == ChecksumTag && s[|s| - 1] == ' '
    ensures ParseHex8(s[|ChecksumTag|..|ChecksumTag| + 8]) == Some(c)
  {
    var s := ChecksumTag + Hex8(c) + " ";
    assert s[|ChecksumTag|..|ChecksumTag| + 8] == Hex8(c);
    ParseOfHex8(c);
    s
  }

  /** One `%08X ` entry per checksum, first plane first. */
  function Entries(cs: seq<uint32>): (s: string)
    ensures |s| == 9 * |cs|
    decreases |cs|
  {
    if |cs| == 0 then "" else Hex8(cs[0]) + " " + Entries(cs[1..])
  }

  /**
   * The plane list that follows the checksum field on the same line: the opening tag,
   * nine characters per plane, and the closing bracket with the newline that ends the line.
   */
  function PlaneLine(cs: seq<uint32>): (s: string)
    ensures |s| == |PlaneOpen| + 9 * |cs| + |PlaneClose|
    ensures s[..|PlaneOpen|] == PlaneOpen
    ensures s[|s| - |PlaneClose|..] == PlaneClose
  {
    PlaneOpen + Entries(cs) + PlaneClose
  }

  /** Reads entries of the form `XXXXXXXX ` until the text is used up. */
  function ParseEntries(s: string): (r: Option<seq<uint32>>)
    decreases |s|
  {
    if |s| == 0 then Some([])
    else if |s| < 9 || s[8] != ' ' then None
    else
      match ParseHex8(s[..8])
      case None => None
      case Some(x) =>
        match ParseEntries(s[9..])
        case None => None
        case Some(rest) => Some([x] + rest)
  }

  /** Reads the plane list back into the list of plane checksums. */
  function ParsePlaneLine(s: string): Option<seq<uint32>>
  {
    if |s| >= |PlaneOpen| + |PlaneClose|
       && s[..|PlaneOpen|] == PlaneOpen
       && s[|s| - |PlaneClose|..] == PlaneClose
    then ParseEntries(s[|PlaneOpen|..|s| - |PlaneClose|])
    else None
  }

  /** A slice lying wholly in the second part of a concatenation. */
  lemma SliceOfSuffix(a: string, b: string, lo: nat, hi: nat)
    requires |a| <= lo <= hi <= |a| + |b|
    ensures (a + b)[lo..hi] == b[lo - |a|..hi - |a|]
  {
  }

  /** Entry `i` of the rendering sits at offset 9 * i and writes the checksum of plane `i`. */
  lemma {:induction false} EntryAt(cs: seq<uint32>, i: nat)
    requires i < |cs|
    ensures Entries(cs)[9 * i..9 * i + 8] == Hex8(cs[i])
    ensures Entries(cs)[9 * i + 8] == ' '
    decreases i
  {
    var head := Hex8(cs[0]) + " ";
    var tail := Entries(cs[1..]);
    assert Entries(cs) == head + tail;
    if i > 0 {
      var j := i - 1;
      EntryAt(cs[1..], j);
      SliceOfSuffix(head, tail, 9 * i, 9 * i + 8);
      assert 9 * i - 9 == 9 * j;
    }
  }

  /** The entries parse back to the checksums they were written from, in the same order. */
  lemma {:induction false} ParseOfEntries(cs: seq<uint32>)
    ensures ParseEntries(Entries(cs)) == Some(cs)
    decreases |cs|
  {
    if |cs| > 0 {
      var head := Hex8(cs[0]) + " ";
      var tail := Entries(cs[1..]);
      var s := head + tail;
      assert s == Entries(cs);
      SliceOfPrefix(head, tail, 0, 8);
      assert head[..8] == Hex8(cs[0]);
      assert s[8] == ' ';
      assert s[9..] == tail;
      ParseOfHex8(cs[0]);
      ParseOfEntries(cs[1..]);
      assert ParseEntries(s) == Some([cs[0]] + cs[1..]);
      assert [cs[0]] + cs[1..] == cs;
    }
  }

  /** The plane list holds exactly the plane checksums, in plane order. */
  lemma ParseOfPlaneLine(cs: seq<uint32>)
    ensures ParsePlaneLine(PlaneLine(cs)) == Some(cs)
  {
    var s := PlaneLine(cs);
    assert s[..|PlaneOpen|] == PlaneOpen;
    assert s[|s| - |PlaneClose|..] == PlaneClose;
    assert s[|PlaneOpen|..|s| - |PlaneClose|] == Entries(cs);
    ParseOfEntries(cs);
  }

  /** Position of every entry in the plane list, for plane `i`. */
  lemma PlaneLineEntry(cs: seq<uint32>, i: nat)
    requires i < |cs|
    ensures |PlaneLine(cs)| == |PlaneOpen| + 9 * |cs| + |PlaneClose|
    ensures PlaneLine(cs)[|PlaneOpen| + 9 * i..|PlaneOpen| + 9 * i + 8] == Hex8(cs[i])
  {
    EntryAt(cs, i);
    var entries := Entries(cs);
    var body := entries + PlaneClose;
    assert PlaneLine(cs) == PlaneOpen + body;
    SliceOfSuffix(PlaneOpen, body, |PlaneOpen| + 9 * i, |PlaneOpen| + 9 * i + 8);
    SliceOfPrefix(entries, PlaneClose, 9 * i, 9 * i + 8);
  }

  /** A slice lying wholly in the first part of a concatenation. */
  lemma SliceOfPrefix(a: string, b: string, lo: nat, hi: nat)
    requires lo <= hi <= |a|
    ensures (a + b)[lo..hi] == a[lo..hi]
  {
  }

  /** The checksum field and the plane list, as the report prints them one after the other. */
  function ChecksumTail(agg: uint32, cs: seq<uint32>): string
  {
    ChecksumField(agg) + PlaneLine(cs)
  }

  /** Reads the checksum field and the plane list that follows it. */
  function ParseChecksumTail(s: string): Option<(uint32, seq<uint32>)>
  {
    var n := |ChecksumTag|;
    if |s| >= n + 9 && s[..n] == ChecksumTag && s[n + 8] == ' ' then
      match ParseHex8(s[n..n + 8])
      case None => None
      case Some(agg) =>
        match ParsePlaneLine(s[n + 9..])
        case None => None
        case Some(cs) => Some((agg, cs))
    else None
  }

  /** The text holds no newline. */
  predicate NoNewline(s: string) {
    forall i | 0 <= i < |s| :: s[i] != '\n'
  }

  lemma ConcatNoNewline(a: string, b: string)
    requires NoNewline(a) && NoNewline(b)
    ensures NoNewline(a + b)
  {
    forall i | 0 <= i < |a + b|
      ensures (a + b)[i] != '\n'
    {
      if i < |a| {
        assert (a + b)[i] == a[i];
      } else {
        assert (a + b)[i] == b[i - |a|];
      }
    }
  }

  /** Hex digits are never a newline. */
  lemma Hex8NoNewline(x: uint32)
    ensures NoNewline(Hex8(x))
  {
    forall i | 0 <= i < 8
      ensures Hex8(x)[i] != '\n'
    {
      assert IsHexDigit(Hex8(x)[i]);
    }
  }

  /** No entry of the plane list is a newline. */
  lemma {:induction false} EntriesHaveNoNewline(cs: seq<uint32>)
    ensures NoNewline(Entries(cs))
    decreases |cs|
  {
    if |cs| > 0 {
      Hex8NoNewline(cs[0]);
      assert NoNewline(" ");
      ConcatNoNewline(Hex8(cs[0]), " ");
      EntriesHaveNoNewline(cs[1..]);
      ConcatNoNewline(Hex8(cs[0]) + " ", Entries(cs[1..]));
    }
  }

  /** Everything before the closing newline of the report holds no newline. */
  lemma TailBodyNoNewline(agg: uint32, cs: seq<uint32>)
    ensures NoNewline(ChecksumField(agg) + PlaneOpen + Entries(cs) + "]")
  {
    var field := ChecksumField(agg);
    assert NoNewline(ChecksumTag) && NoNewline(" ");
    Hex8NoNewline(agg);
    ConcatNoNewline(ChecksumTag, Hex8(agg));
    ConcatNoNewline(ChecksumTag + Hex8(agg), " ");
    assert NoNewline(PlaneOpen);
    ConcatNoNewline(field, PlaneOpen);
    EntriesHaveNoNewline(cs);
    ConcatNoNewline(field + PlaneOpen, Entries(cs));
    assert NoNewline("]");
    ConcatNoNewline(field + PlaneOpen + Entries(cs), "]");
  }

  /** Regrouping the report so that its closing newline stands alone. */
  lemma TailSplit(field: string, entries: string)
    ensures field + (PlaneOpen + entries + PlaneClose) == (field + PlaneOpen + entries + "]") + "\n"
  {
    assert PlaneClose == "]" + "\n";
  }

  /** A text with no newline followed by one newline is a single line. */
  lemma EndsLine(body: string)
    requires NoNewline(body)
    ensures (body + "\n")[|body + "\n"| - 1] == '\n'
    ensures forall i | 0 <= i < |body + "\n"| - 1 :: (body + "\n")[i] != '\n'
  {
    forall i | 0 <= i < |body|
      ensures (body + "\n")[i] != '\n'
    {
      assert (body + "\n")[i] == body[i];
    }
  }

  /**
   * The checksum field and plane list print on one line: their only newline is the
   * closing one, so the report of a frame is a single line.
   */
  lemma ChecksumTailIsOneLine(agg: uint32, cs: seq<uint32>)
    ensures |ChecksumTail(agg, cs)| > 0
    ensures ChecksumTail(agg, cs)[|ChecksumTail(agg, cs)| - 1] == '\n'
    ensures forall i | 0 <= i < |ChecksumTail(agg, cs)| - 1 :: ChecksumTail(agg, cs)[i] != '\n'
  {
    var body := ChecksumField(agg) + PlaneOpen + Entries(cs) + "]";
    TailSplit(ChecksumField(agg), Entries(cs));
    assert ChecksumTail(agg, cs) == body + "\n";
    TailBodyNoNewline(agg, cs);
    EndsLine(body);
  }

  /** The checksum field and plane list read back to the aggregate and the plane checksums. */
  lemma ParseOfChecksumTail(agg: uint32, cs: seq<uint32>)
    ensures ParseChecksumTail(ChecksumTail(agg, cs)) == Some((agg, cs))
  {
    var field := ChecksumField(agg);
    var line := PlaneLine(cs);
    var s := field + line;
    var n := |ChecksumTag|;
    SliceOfPrefix(field, line, 0, n);
    SliceOfPrefix(field, line, n, n + 8);
    assert s[n + 8] == field[n + 8];
    assert s[n + 9..] == line;
    ParseOfPlaneLine(cs);
  }
}
