/** The command-line orchestration: `dump` renders one binary as MIF, and
    `join` splits binaries into memory areas, skips or joins each area
    into MIF accumulators and renders every accumulator.

    Files are given in memory: a binary is its label and its bytes, and
    the outputs are (label, MIF text) pairs in the order the library would
    write them. Opening, creating and writing files are not modelled. */
module Cli {
  import opened Base
  import opened Numeric
  import opened Endian
  import opened Store
  import opened MifText

  /** A word to skip as configured: one 64-bit integer, or two as
      [most significant, least significant] halves of a 128-bit word. */
  datatype Word = One(one: U64) | Two(msb: U64, lsb: U64)

  /** Whether a memory area is skipped (its words must all be among the
      given ones, unless none are given) or joined into the named MIFs. */
  datatype Instr = Skips(skips: seq<Word>) | Joins(joins: seq<Path>)

  /** A memory area of a binary: byte order, word width, depth in words
      and what to do with it. Defaults of the configuration are taken as
      already resolved. */
  datatype Area = Area(first: First, width: nat, depth: nat, instr: Instr)

  /** A binary: its label, its bytes and its memory areas in order. */
  datatype BinFile = BinFile(path: Path, bytes: seq<Byte>, areas: seq<Area>)

  /** Errors of the orchestration, wrapping the store's errors. */
  datatype CliError =
    | Lib(error: Error)
    | NoIntegralMultiple
    | InvalidSkip(bin: Path)
    | DifferentWidth(mif: Path)
    | LeftOver(count: nat, bin: Path)

  /** The width used when an area declares none. */
  function DefaultWidth(): (w: nat)
    ensures w == 16 && 1 <= w <= MaxWidth
  {
    16
  }

  /** The 128-bit value of a configured word: a single half as is, two
      halves as the high half shifted up by 64 bits or-ed with the low
      half. */
  function AsWord(w: Word): (r: U128)
    ensures w.One? ==> r == w.one
    ensures w.Two? ==> r == w.msb * TWO64 + w.lsb
  {
    match w
    case One(x) => x
    case Two(h, l) =>
      Pow2Constants();
      assert h * TWO64 < TWO128 by {
        assert h * TWO64 <= (TWO64 - 1) * TWO64;
      }
      assert Shl(h, 64) == h * TWO64;
      BitOrShifted(h, l, 64);
      BitOr(Shl(h, 64), l)
  }

  function NewStore(width: nat): (r: Result<Mif, CliError>)
    ensures r.Ok? <==> 1 <= width <= MaxWidth
    ensures r.Ok? ==>
      Valid(r.value) && r.value.width == width && r.value.depth == 0 && r.value.words == [] && r.value.areas == []
    ensures r.Err? ==> r.error == Lib(WidthOutOfRange(width, MaxWidth))
  {
    match New(width)
    case Ok(m) => Ok(m)
    case Err(e) => Err(Lib(e))
  }

  /** Dumps the first `count` bytes as MIF without area comments. The
      count must be a whole number of words. */
  function Dump(bytes: seq<Byte>, count: nat, width: nat, first: First): (r: Result<string, CliError>)
    ensures !(1 <= width <= MaxWidth) ==> r == Err(Lib(WidthOutOfRange(width, MaxWidth)))
  {
    var m :- NewStore(width);
    var align := Align(m.width);
    var depth := count / align;
    if depth * align != count then Err(NoIntegralMultiple)
    else
      var rd := Read(m, bytes, 0, depth, first);
      if rd.status.Failed? then Err(Lib(rd.status.error))
      else Ok(Write(rd.mif, false))
  }

  /** MIF accumulators by label, with the labels in order of creation. */
  datatype Accs = Accs(order: seq<Path>, mifs: map<Path, Mif>)

  /** Every accumulator is a valid store and the order lists exactly the
      accumulators. */
  predicate AccsValid(accs: Accs)
  {
    && (forall t :: t in accs.mifs ==> Valid(accs.mifs[t]))
    && (forall t :: t in accs.order ==> t in accs.mifs)
  }

  /** Makes sure an accumulator labelled `target` exists, creating an empty
      one of the given width at the end of the order if not. */
  function Touch(accs: Accs, target: Path, width: nat): (r: Result<Accs, CliError>)
    ensures r.Ok? ==> target in r.value.mifs
    ensures target in accs.mifs ==> r == Ok(accs)
    ensures target !in accs.mifs ==> (r.Ok? <==> 1 <= width <= MaxWidth)
    ensures target !in accs.mifs && r.Ok? ==>
      r.value == Accs(accs.order + [target], accs.mifs[target := Mif(width, 0, [], [])])
    ensures target !in accs.mifs && r.Err? ==> r.error == Lib(WidthOutOfRange(width, MaxWidth))
    ensures AccsValid(accs) && r.Ok? ==> AccsValid(r.value)
  {
    if target in accs.mifs then Ok(accs)
    else
      var m :- NewStore(width);
      Ok(Accs(accs.order + [target], accs.mifs[target := m]))
  }

  /** Joins the store `area`, read from binary `bin`, into the accumulator
      `target`: the accumulator is created on first reference, must have
      the area's width, records `bin` at its depth and then takes the
      area's words. */
  function JoinOne(accs: Accs, bin: Path, width: nat, area: Mif, target: Path): (r: Result<Accs, CliError>)
    ensures r.Ok? ==> target in r.value.mifs && r.value.mifs[target].width == width
    ensures AccsValid(accs) && r.Ok? ==> AccsValid(r.value)
  {
    var touched :- Touch(accs, target, width);
    var m := touched.mifs[target];
    if m.width != width then Err(DifferentWidth(target))
    else
      var e := Join(Store.Area(m, bin), area);
      if e.status.Failed? then Err(Lib(e.status.error))
      else
        AccsUpdate(touched, target, e.mif);
        Ok(Accs(touched.order, touched.mifs[target := e.mif]))
  }

  /** Replacing an existing accumulator by a valid store keeps the
      accumulators valid. */
  lemma AccsUpdate(accs: Accs, target: Path, m: Mif)
    requires target in accs.mifs
    ensures AccsValid(accs) && Valid(m) ==> AccsValid(Accs(accs.order, accs.mifs[target := m]))
  {
  }

  /** Joins the store `area` into each accumulator of `targets` in order. */
  function JoinTargets(accs: Accs, bin: Path, width: nat, area: Mif, targets: seq<Path>): (r: Result<Accs, CliError>)
    ensures AccsValid(accs) && r.Ok? ==> AccsValid(r.value)
    decreases |targets|
  {
    if |targets| == 0 then Ok(accs)
    else
      var next :- JoinOne(accs, bin, width, area, targets[0]);
      JoinTargets(next, bin, width, area, targets[1..])
  }

  /** The word is one of the words to skip. */
  predicate Skippable(word: U128, skips: seq<Word>)
  {
    exists j :: 0 <= j < |skips| && AsWord(skips[j]) == word
  }

  /** Every run's word is one of the words to skip. */
  predicate AllSkippable(runs: seq<Run>, skips: seq<Word>)
  {
    forall i :: 0 <= i < |runs| ==> Skippable(runs[i].word, skips)
  }

  /** Reads one memory area of binary `bin` at byte `pos`, then checks it
      against its skip list or joins it into its targets. Gives the
      accumulators and the position after the area. */
  function ProcessArea(accs: Accs, bin: Path, bytes: seq<Byte>, pos: nat, area: Area): (r: Result<(Accs, nat), CliError>)
    requires pos <= |bytes|
    ensures r.Ok? ==> r.value.1 == pos + Span(area.depth, Align(area.width)) && r.value.1 <= |bytes|
    ensures r.Ok? && area.instr.Skips? ==> r.value.0 == accs
    ensures AccsValid(accs) && r.Ok? ==> AccsValid(r.value.0)
  {
    var m :- NewStore(area.width);
    var rd := Read(m, bytes, pos, area.depth, area.first);
    if rd.status.Failed? then Err(Lib(rd.status.error))
    else
      match area.instr
      case Skips(skips) =>
        if |skips| > 0 && !AllSkippable(rd.mif.words, skips) then Err(InvalidSkip(bin))
        else Ok((accs, rd.pos))
      case Joins(joins) =>
        var joined :- JoinTargets(accs, bin, area.width, rd.mif, joins);
        Ok((joined, rd.pos))
  }

  /** Total bytes the areas take: each its depth times its word width in
      bytes. */
  function AreaBytes(areas: seq<Area>): nat
  {
    if |areas| == 0 then 0 else Span(areas[0].depth, Align(areas[0].width)) + AreaBytes(areas[1..])
  }

  /** Processes the areas of one binary in order from byte `pos`. */
  function ProcessAreas(accs: Accs, bin: Path, bytes: seq<Byte>, pos: nat, areas: seq<Area>): (r: Result<(Accs, nat), CliError>)
    requires pos <= |bytes|
    ensures r.Ok? ==> r.value.1 == pos + AreaBytes(areas) && r.value.1 <= |bytes|
    ensures AccsValid(accs) && r.Ok? ==> AccsValid(r.value.0)
    decreases |areas|
  {
    if |areas| == 0 then Ok((accs, pos))
    else
      var p :- ProcessArea(accs, bin, bytes, pos, areas[0]);
      ProcessAreas(p.0, bin, bytes, p.1, areas[1..])
  }

  /** Processes one binary; bytes left after its last area are an error
      reporting how many there are. */
  function ProcessFile(accs: Accs, file: BinFile): (r: Result<Accs, CliError>)
    ensures r.Ok? ==> AreaBytes(file.areas) == |file.bytes|
    ensures ProcessAreas(accs, file.path, file.bytes, 0, file.areas).Ok? ==>
      (r.Ok? <==> AreaBytes(file.areas) == |file.bytes|)
    ensures ProcessAreas(accs, file.path, file.bytes, 0, file.areas).Ok? && AreaBytes(file.areas) < |file.bytes| ==>
      r == Err(LeftOver(|file.bytes| - AreaBytes(file.areas), file.path))
    ensures AccsValid(accs) && r.Ok? ==> AccsValid(r.value)
  {
    var p :- ProcessAreas(accs, file.path, file.bytes, 0, file.areas);
    if p.1 < |file.bytes| then Err(LeftOver(|file.bytes| - p.1, file.path))
    else Ok(p.0)
  }

  function ProcessFiles(accs: Accs, files: seq<BinFile>): (r: Result<Accs, CliError>)
    ensures AccsValid(accs) && r.Ok? ==> AccsValid(r.value)
    decreases |files|
  {
    if |files| == 0 then Ok(accs)
    else
      var a :- ProcessFile(accs, files[0]);
      ProcessFiles(a, files[1..])
  }

  /** The MIF text of every accumulator in order of creation. */
  function Outputs(accs: Accs, areas: bool): (r: seq<(Path, string)>)
    requires AccsValid(accs)
    ensures |r| == |accs.order|
    ensures forall i :: 0 <= i < |r| ==> r[i].0 == accs.order[i]
    ensures forall i :: 0 <= i < |r| ==> r[i].1 == Write(accs.mifs[accs.order[i]], areas)
  {
    seq(|accs.order|, i requires 0 <= i < |accs.order| => (accs.order[i], Write(accs.mifs[accs.order[i]], areas)))
  }

  /** Joins the memory areas of the binaries as MIFs. Nothing is written
      unless every binary is processed without error. */
  function JoinAll(files: seq<BinFile>, areas: bool): (r: Result<seq<(Path, string)>, CliError>)
  {
    var accs :- ProcessFiles(Accs([], map[]), files);
    Ok(Outputs(accs, areas))
  }
}
