/** What the MIF text of a store says: reading it back recovers the
    areas, the width, the depth and one entry per run; the entries tile
    the addresses from zero to the depth and list the store's words; and
    the address and word columns have fixed widths. */
module MifTextFacts {
  import opened Base
  import opened Numeric
  import opened Store
  import opened Numerals
  import opened MifText

  lemma ExpectLit(lit: string, rest: string)
    ensures Expect(lit, lit + rest) == Some(rest)
  {
    assert (lit + rest)[..|lit|] == lit;
    assert (lit + rest)[|lit|..] == rest;
  }

  lemma ExpectThen(lit: string, x: string, rest: string)
    ensures Expect(lit, (lit + x) + rest) == Some(x + rest)
  {
    AppendAssoc(lit, x, rest);
    ExpectLit(lit, x + rest);
  }

  /** A hex field followed by the separator `x` reads back as its number. */
  lemma ParseHexThen(n: nat, w: nat, x: string, rest: string)
    requires |x| > 0 && !IsDigit(x[0], 16)
    ensures ParseNumeral((Hex(n, w) + x) + rest, 16) == Some((n, x + rest))
  {
    ParsePadNumeral(n, w, 16, x, rest);
  }

  /** A decimal field followed by the separator `x` reads back as its
      number. */
  lemma ParseDecThen(n: nat, x: string, rest: string)
    requires |x| > 0 && !IsDigit(x[0], 10)
    ensures ParseNumeral((Dec(n) + x) + rest, 10) == Some((n, x + rest))
  {
    assert PadNumeral(n, 0, 10) == Dec(n);
    ParsePadNumeral(n, 0, 10, x, rest);
  }

  lemma {:induction false} TakeLineOf(name: string, rest: string)
    requires '\n' !in name
    ensures TakeLine((name + "\n") + rest) == Some((name, rest))
  {
    var s := (name + "\n") + rest;
    if |name| == 0 {
      assert s == "\n" + rest;
      assert s[1..] == rest;
    } else {
      assert s[0] == name[0];
      assert s[1..] == (name[1..] + "\n") + rest;
      TakeLineOf(name[1..], rest);
      assert [name[0]] + name[1..] == name;
    }
  }

  predicate NoLineBreaks(areas: seq<(nat, Path)>)
  {
    forall i :: 0 <= i < |areas| ==> '\n' !in areas[i].1
  }

  lemma ParseAreaLineOf(addr: nat, name: Path, ap: nat, rest: string)
    requires '\n' !in name
    ensures ParseAreaLine(AreaLine(addr, name, ap) + rest) == Some(((addr, name), rest))
  {
    var y := ": " + (name + "\n");
    ExpectThen("-- ", Hex(addr, ap) + y, rest);
    ParseHexThen(addr, ap, y, rest);
    ExpectThen(": ", name + "\n", rest);
    TakeLineOf(name, rest);
  }

  lemma {:induction false} ParseAreaLinesOf(areas: seq<(nat, Path)>, ap: nat, rest: string)
    requires NoLineBreaks(areas) && !StartsWith(rest, "-- ")
    ensures ParseAreaLines(AreaLines(areas, ap) + rest) == Some((areas, rest))
  {
    if |areas| == 0 {
      assert AreaLines(areas, ap) + rest == rest;
    } else {
      var line := AreaLine(areas[0].0, areas[0].1, ap);
      var tail := AreaLines(areas[1..], ap);
      var s := AreaLines(areas, ap) + rest;
      AppendAssoc(line, tail, rest);
      assert s == line + (tail + rest);
      assert StartsWith(s, "-- ") by {
        assert s[..3] == line[..3];
      }
      assert '\n' !in areas[0].1;
      ParseAreaLineOf(areas[0].0, areas[0].1, ap, tail + rest);
      ParseAreaLinesOf(areas[1..], ap, rest);
      assert [areas[0]] + areas[1..] == areas;
    }
  }

  lemma HeaderEndStart()
    ensures |HeaderEnd| > 0 && HeaderEnd[0] == ';'
  {
  }

  lemma ParseHeaderOf(width: nat, depth: nat, rest: string)
    ensures ParseHeader(Header(width, depth) + rest) == Some(((width, depth), rest))
  {
    var y := ";\nDEPTH=" + (Dec(depth) + HeaderEnd);
    ExpectThen("WIDTH=", Dec(width) + y, rest);
    ParseDecThen(width, y, rest);
    ExpectThen(";\nDEPTH=", Dec(depth) + HeaderEnd, rest);
    HeaderEndStart();
    ParseDecThen(depth, HeaderEnd, rest);
    ExpectLit(HeaderEnd, rest);
  }

  lemma ParseEntryOf(addr: nat, run: Run, ap: nat, wp: nat, rest: string)
    requires run.bulk > 0
    ensures ParseEntry(RunLine(addr, run, ap, wp) + rest)
         == Some((Entry(addr, addr + run.bulk - 1, run.word), rest))
  {
    if run.bulk == 1 {
      ParseSingleOf(addr, run.word, ap, wp, rest);
    } else {
      ParseRangeOf(addr, addr + run.bulk - 1, run.word, ap, wp, rest);
    }
  }

  lemma ParseSingleOf(addr: nat, word: nat, ap: nat, wp: nat, rest: string)
    ensures ParseEntry("\t" + (Hex(addr, ap) + ("  :   " + (Hex(word, wp) + ";\n"))) + rest)
         == Some((Entry(addr, addr, word), rest))
  {
    var tail := Hex(word, wp) + ";\n";
    var y := "  :   " + tail;
    var x := Hex(addr, ap) + y;
    ExpectThen("\t", x, rest);
    PadNumeralValue(addr, ap, 16);
    assert (x + rest)[0] == Hex(addr, ap)[0];
    assert !StartsWith(x + rest, "[");
    ParseHexThen(addr, ap, y, rest);
    ExpectThen("  :   ", tail, rest);
    ParseHexThen(word, wp, ";\n", rest);
    ExpectLit(";\n", rest);
  }

  lemma ParseRangeOf(addr: nat, last: nat, word: nat, ap: nat, wp: nat, rest: string)
    ensures ParseEntry("\t" + ("[" + (Hex(addr, ap) + (".." + (Hex(last, ap) + ("]  :   " + (Hex(word, wp) + ";\n")))))) + rest)
         == Some((Entry(addr, last, word), rest))
  {
    var tail := Hex(word, wp) + ";\n";
    var z := "]  :   " + tail;
    var y := ".." + (Hex(last, ap) + z);
    var x := Hex(addr, ap) + y;
    ExpectThen("\t", "[" + x, rest);
    assert StartsWith(("[" + x) + rest, "[");
    assert (("[" + x) + rest)[1..] == x + rest;
    ParseHexThen(addr, ap, y, rest);
    ExpectThen("..", Hex(last, ap) + z, rest);
    ParseHexThen(last, ap, z, rest);
    ExpectThen("]  :   ", tail, rest);
    ParseHexThen(word, wp, ";\n", rest);
    ExpectLit(";\n", rest);
  }

  lemma {:induction false} ParseEntriesOf(runs: seq<Run>, addr: nat, ap: nat, wp: nat, rest: string)
    requires PositiveBulks(runs) && !StartsWith(rest, "\t")
    ensures ParseEntries(RunLines(runs, addr, ap, wp) + rest) == Some((Entries(runs, addr), rest))
  {
    if |runs| == 0 {
      assert RunLines(runs, addr, ap, wp) + rest == rest;
    } else {
      var next := addr + runs[0].bulk;
      ParseEntriesOf(runs[1..], next, ap, wp, rest);
      var mid := RunLines(runs[1..], next, ap, wp) + rest;
      var es := Entries(runs[1..], next);
      ParseEntriesStep(runs, addr, ap, wp, rest, mid, es);
    }
  }

  /** If the lines of all runs but the first read back as their entries,
      the lines of all runs do. */
  lemma ParseEntriesStep(runs: seq<Run>, addr: nat, ap: nat, wp: nat, rest: string, mid: string, es: seq<Entry>)
    requires PositiveBulks(runs) && |runs| > 0
    requires mid == RunLines(runs[1..], addr + runs[0].bulk, ap, wp) + rest
    requires es == Entries(runs[1..], addr + runs[0].bulk)
    requires ParseEntries(mid) == Some((es, rest))
    ensures ParseEntries(RunLines(runs, addr, ap, wp) + rest) == Some((Entries(runs, addr), rest))
  {
    RunLinesCons(runs, addr, ap, wp, rest);
    EntriesCons(runs, addr);
    ParseRunThen(addr, runs[0], ap, wp, RunLines(runs, addr, ap, wp) + rest, mid, Entries(runs, addr), es, rest);
  }

  lemma EntriesCons(runs: seq<Run>, addr: nat)
    requires PositiveBulks(runs) && |runs| > 0
    ensures Entries(runs, addr)
         == [Entry(addr, addr + runs[0].bulk - 1, runs[0].word)] + Entries(runs[1..], addr + runs[0].bulk)
  {
  }

  /** A run's content line followed by lines that read back as `es`
      reads back as the run's entry, then `es` (together, `all`). */
  lemma ParseRunThen(addr: nat, run: Run, ap: nat, wp: nat, whole: string, mid: string, all: seq<Entry>, es: seq<Entry>, rest: string)
    requires run.bulk > 0 && ParseEntries(mid) == Some((es, rest))
    requires whole == RunLine(addr, run, ap, wp) + mid
    requires all == [Entry(addr, addr + run.bulk - 1, run.word)] + es
    ensures ParseEntries(whole) == Some((all, rest))
  {
    var line := RunLine(addr, run, ap, wp);
    assert StartsWith(line + mid, "\t") by {
      assert (line + mid)[0] == line[0] == '\t';
    }
    ParseEntryOf(addr, run, ap, wp, mid);
    ParseEntriesCons(line + mid, Entry(addr, addr + run.bulk - 1, run.word), mid, es, rest);
  }

  /** The content lines of runs are the first run's line, then the lines
      of the others. */
  lemma RunLinesCons(runs: seq<Run>, addr: nat, ap: nat, wp: nat, rest: string)
    requires PositiveBulks(runs) && |runs| > 0
    ensures RunLines(runs, addr, ap, wp) + rest
         == RunLine(addr, runs[0], ap, wp) + (RunLines(runs[1..], addr + runs[0].bulk, ap, wp) + rest)
  {
    var line := RunLine(addr, runs[0], ap, wp);
    var tail := RunLines(runs[1..], addr + runs[0].bulk, ap, wp);
    AppendAssoc(line, tail, rest);
  }

  /** One entry followed by more entries reads as their concatenation. */
  lemma ParseEntriesCons(s: string, e: Entry, mid: string, es: seq<Entry>, rest: string)
    requires StartsWith(s, "\t") && ParseEntry(s) == Some((e, mid))
    requires ParseEntries(mid) == Some((es, rest))
    ensures ParseEntries(s) == Some(([e] + es, rest))
  {
  }

  /** The area block reads back as the areas when they are written, and
      as none otherwise. */
  lemma ParseAreaBlockOf(m: Mif, areas: bool, rest: string)
    requires NoLineBreaks(m.areas) && |rest| > 0 && rest[0] == 'W'
    ensures ParseAreaBlock((if areas && |m.areas| > 0 then AreaLines(m.areas, AddrPads(m.depth)) + "\n" else "") + rest)
         == Some((if areas then m.areas else [], rest))
  {
    var ap := AddrPads(m.depth);
    assert !StartsWith(rest, "-- ") by {
      assert rest[0] == 'W';
    }
    if areas && |m.areas| > 0 {
      var lines := AreaLines(m.areas, ap);
      AppendAssoc(lines, "\n", rest);
      assert !StartsWith("\n" + rest, "-- ") by {
        assert ("\n" + rest)[0] == '\n';
      }
      ParseAreaLinesOf(m.areas, ap, "\n" + rest);
      ExpectLit("\n", rest);
    } else {
      ParseAreaLinesOf([], ap, rest);
      assert "" + rest == rest;
    }
  }

  /** The MIF text of a valid store reads back as its areas (when they are
      written), its width, its depth and one entry per run. Labels must
      not contain a line break, since an area comment ends at one. */
  lemma WriteParse(m: Mif, areas: bool)
    requires Valid(m) && NoLineBreaks(m.areas)
    ensures ParseMif(Write(m, areas))
         == Some(Doc(if areas then m.areas else [], m.width, m.depth, Entries(m.words, 0)))
  {
    var ap := AddrPads(m.depth);
    var wp := WordPads(m.width);
    var body := RunLines(m.words, 0, ap, wp) + Trailer;
    var rest := Header(m.width, m.depth) + body;
    HeaderStart(m.width, m.depth, body);
    ParseAreaBlockOf(m, areas, rest);
    ParseHeaderOf(m.width, m.depth, body);
    TrailerEnds();
    ParseEntriesOf(m.words, 0, ap, wp, Trailer);
    ParseMifOf(Write(m, areas), rest, body, if areas then m.areas else [], m.width, m.depth, Entries(m.words, 0),
               Doc(if areas then m.areas else [], m.width, m.depth, Entries(m.words, 0)));
  }

  lemma HeaderStart(width: nat, depth: nat, body: string)
    ensures |Header(width, depth) + body| > 0 && (Header(width, depth) + body)[0] == 'W'
  {
  }

  /** The closing line is no content line and is read as a whole. */
  lemma TrailerEnds()
    ensures !StartsWith(Trailer, "\t")
    ensures Expect(Trailer, Trailer) == Some("")
  {
    assert Trailer[0] == 'E';
    assert Trailer + "" == Trailer;
    ExpectLit(Trailer, "");
  }

  /** A text whose area block, header, entries and closing line each read
      back reads back as the document they make up. */
  lemma ParseMifOf(s: string, s1: string, s2: string, areas: seq<(nat, Path)>, width: nat, depth: nat,
                   entries: seq<Entry>, doc: Doc)
    requires ParseAreaBlock(s) == Some((areas, s1))
    requires ParseHeader(s1) == Some(((width, depth), s2))
    requires ParseEntries(s2) == Some((entries, Trailer))
    requires Expect(Trailer, Trailer) == Some("")
    requires doc == Doc(areas, width, depth, entries)
    ensures ParseMif(s) == Some(doc)
  {
  }

  /** The entries cover the addresses from `from` up to, not including,
      `to`, in order, each a non-empty range, without gap or overlap. */
  predicate Tiles(entries: seq<Entry>, from: nat, to: nat)
    decreases |entries|
  {
    if |entries| == 0 then from == to
    else
      && entries[0].first == from && entries[0].first <= entries[0].last
      && Tiles(entries[1..], entries[0].last + 1, to)
  }

  /** The words the entries assign, address after address. */
  function EntryWords(entries: seq<Entry>): seq<nat>
  {
    if |entries| == 0 then []
    else
      var e := entries[0];
      Repeat(e.word, if e.first <= e.last then e.last + 1 - e.first else 0) + EntryWords(entries[1..])
  }

  /** The entries written for runs tile the addresses the runs occupy and
      assign exactly the words the runs stand for. */
  lemma {:induction false} EntriesTile(runs: seq<Run>, addr: nat)
    requires PositiveBulks(runs)
    ensures Tiles(Entries(runs, addr), addr, addr + SumBulks(runs))
    ensures EntryWords(Entries(runs, addr)) == Expand(runs)
  {
    var es := Entries(runs, addr);
    if |runs| > 0 {
      var r := runs[0];
      var next := addr + r.bulk;
      EntriesTile(runs[1..], next);
      assert es[1..] == Entries(runs[1..], next);
      assert es[0] == Entry(addr, next - 1, r.word);
      var head: seq<nat> := Repeat(r.word, r.bulk);
      assert head == Repeat(r.word, r.bulk);
    }
  }

  /** Every address below the depth takes the same number of hex digits:
      `AddrPads(depth)`, or one when that is zero. */
  lemma AddressColumns(depth: nat, addr: nat)
    requires addr < depth
    ensures |Hex(addr, AddrPads(depth))| == if AddrPads(depth) == 0 then 1 else AddrPads(depth)
  {
    var ap := AddrPads(depth);
    if ap == 0 {
      assert addr == 0;
      assert Numeral(0, 16) == [DigitChar(0)];
    } else {
      PadNumeralWidth(addr, ap, 16);
    }
  }

  /** Every word that fits a width of at least one bit takes exactly
      `WordPads(width)` hex digits. */
  lemma WordColumns(width: nat, word: nat)
    requires 1 <= width && word < Pow(2, width)
    ensures |Hex(word, WordPads(width))| == WordPads(width)
  {
    var wp := WordPads(width);
    PowMonotonic(2, width, 4 * wp);
    PowNibbles(wp);
    PadNumeralWidth(word, wp, 16);
  }
}
