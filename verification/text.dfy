/** The MIF text of a word store (`Mif::write`) and a reader for the
    part of the MIF format that the writer produces. */
module MifText {
  import opened Base
  import opened Numeric
  import opened Store
  import opened Numerals

  /** Upper-case hex numeral of `n` with at least `w` digits (`{:0w$X}`). */
  function Hex(n: nat, w: nat): string
  {
    PadNumeral(n, w, 16)
  }

  /** Decimal numeral of `n` (`{}`). */
  function Dec(n: nat): string
  {
    Numeral(n, 10)
  }

  /** The comment naming a memory area: `-- ADDR: label`. */
  function AreaLine(addr: nat, name: Path, ap: nat): string
  {
    "-- " + (Hex(addr, ap) + (": " + (name + "\n")))
  }

  function AreaLines(areas: seq<(nat, Path)>, ap: nat): string
  {
    if |areas| == 0 then "" else AreaLine(areas[0].0, areas[0].1, ap) + AreaLines(areas[1..], ap)
  }

  /** The end of the header: the line ending the depth, the radix
      declarations and the start of the content. */
  const HeaderEnd: string := ";" + "\n\nADDRESS_RADIX=HEX;\nDATA_RADIX=HEX;\n\nCONTENT BEGIN\n"

  /** Width and depth in decimal, both radixes hex, then the start of the
      content. */
  function Header(width: nat, depth: nat): string
  {
    "WIDTH=" + (Dec(width) + (";\nDEPTH=" + (Dec(depth) + HeaderEnd)))
  }

  const Trailer: string := "END;\n"

  predicate PositiveBulks(runs: seq<Run>)
  {
    forall i :: 0 <= i < |runs| ==> runs[i].bulk > 0
  }

  /** The content line of a run at address `addr`: a single address for a
      bulk of one, an inclusive address range otherwise. */
  function RunLine(addr: nat, run: Run, ap: nat, wp: nat): string
    requires run.bulk > 0
  {
    if run.bulk == 1 then
      "\t" + (Hex(addr, ap) + ("  :   " + (Hex(run.word, wp) + ";\n")))
    else
      "\t" + ("[" + (Hex(addr, ap) + (".." + (Hex(addr + run.bulk - 1, ap) + ("]  :   " + (Hex(run.word, wp) + ";\n"))))))
  }

  function RunLines(runs: seq<Run>, addr: nat, ap: nat, wp: nat): string
    requires PositiveBulks(runs)
  {
    if |runs| == 0 then ""
    else RunLine(addr, runs[0], ap, wp) + RunLines(runs[1..], addr + runs[0].bulk, ap, wp)
  }

  /** The MIF text of a store: with `areas`, a comment per memory area and
      a blank line first (none when no area is recorded); then the header,
      a content line per run and the closing line. Addresses take
      `AddrPads(depth)` hex digits and words `WordPads(width)`. */
  function Write(m: Mif, areas: bool): string
    requires Valid(m)
  {
    var ap := AddrPads(m.depth);
    var wp := WordPads(m.width);
    var block := if areas && |m.areas| > 0 then AreaLines(m.areas, ap) + "\n" else "";
    block + (Header(m.width, m.depth) + (RunLines(m.words, 0, ap, wp) + Trailer))
  }

  /** One content line as read back: an inclusive address range and its
      word. */
  datatype Entry = Entry(first: nat, last: nat, word: nat)

  /** What a MIF text read back says. */
  datatype Doc = Doc(areas: seq<(nat, Path)>, width: nat, depth: nat, entries: seq<Entry>)

  /** The entries a store's runs are written as, from address `addr`. */
  function Entries(runs: seq<Run>, addr: nat): seq<Entry>
    requires PositiveBulks(runs)
  {
    if |runs| == 0 then []
    else [Entry(addr, addr + runs[0].bulk - 1, runs[0].word)] + Entries(runs[1..], addr + runs[0].bulk)
  }

  predicate StartsWith(s: string, p: string)
  {
    |p| <= |s| && s[..|p|] == p
  }

  /** Consumes the literal `lit` at the start of `s`. */
  function Expect(lit: string, s: string): (r: Option<string>)
    ensures r.Some? ==> |r.value| + |lit| == |s|
  {
    if StartsWith(s, lit) then Some(s[|lit|..]) else None
  }

  /** The characters before the first line break, and what follows the
      break. */
  function TakeLine(s: string): (r: Option<(string, string)>)
    ensures r.Some? ==> |r.value.1| < |s|
  {
    if |s| == 0 then None
    else if s[0] == '\n' then Some(([], s[1..]))
    else
      var t :- TakeLine(s[1..]);
      Some(([s[0]] + t.0, t.1))
  }

  function ParseAreaLine(s: string): (r: Option<((nat, Path), string)>)
    ensures r.Some? ==> |r.value.1| < |s|
  {
    var s1 :- Expect("-- ", s);
    var a :- ParseNumeral(s1, 16);
    var s2 :- Expect(": ", a.1);
    var t :- TakeLine(s2);
    Some(((a.0, t.0), t.1))
  }

  function ParseAreaLines(s: string): (r: Option<(seq<(nat, Path)>, string)>)
    ensures r.Some? ==> |r.value.1| <= |s|
    decreases |s|
  {
    if StartsWith(s, "-- ") then
      var p :- ParseAreaLine(s);
      var q :- ParseAreaLines(p.1);
      Some(([p.0] + q.0, q.1))
    else Some(([], s))
  }

  /** Area comments and, when there is at least one, the blank line after
      them. */
  function ParseAreaBlock(s: string): (r: Option<(seq<(nat, Path)>, string)>)
  {
    var p :- ParseAreaLines(s);
    if |p.0| == 0 then Some(p)
    else
      var s1 :- Expect("\n", p.1);
      Some((p.0, s1))
  }

  function ParseHeader(s: string): (r: Option<((nat, nat), string)>)
  {
    var s1 :- Expect("WIDTH=", s);
    var w :- ParseNumeral(s1, 10);
    var s2 :- Expect(";\nDEPTH=", w.1);
    var d :- ParseNumeral(s2, 10);
    var s3 :- Expect(HeaderEnd, d.1);
    Some(((w.0, d.0), s3))
  }

  function ParseEntry(s: string): (r: Option<(Entry, string)>)
    ensures r.Some? ==> |r.value.1| < |s|
  {
    var s1 :- Expect("\t", s);
    if StartsWith(s1, "[") then
      var s2 := s1[1..];
      var a :- ParseNumeral(s2, 16);
      var s3 :- Expect("..", a.1);
      var b :- ParseNumeral(s3, 16);
      var s4 :- Expect("]  :   ", b.1);
      var w :- ParseNumeral(s4, 16);
      var s5 :- Expect(";\n", w.1);
      Some((Entry(a.0, b.0, w.0), s5))
    else
      var a :- ParseNumeral(s1, 16);
      var s2 :- Expect("  :   ", a.1);
      var w :- ParseNumeral(s2, 16);
      var s3 :- Expect(";\n", w.1);
      Some((Entry(a.0, a.0, w.0), s3))
  }

  function ParseEntries(s: string): (r: Option<(seq<Entry>, string)>)
    ensures r.Some? ==> |r.value.1| <= |s|
    decreases |s|
  {
    if StartsWith(s, "\t") then
      var p :- ParseEntry(s);
      var q :- ParseEntries(p.1);
      Some(([p.0] + q.0, q.1))
    else Some(([], s))
  }

  /** Reads a MIF text of the shape `Write` produces. */
  function ParseMif(s: string): Option<Doc>
  {
    var a :- ParseAreaBlock(s);
    var h :- ParseHeader(a.1);
    var e :- ParseEntries(h.1);
    var t :- Expect(Trailer, e.1);
    if |t| == 0 then Some(Doc(a.0, h.0.0, h.0.1, e.0)) else None
  }
}
