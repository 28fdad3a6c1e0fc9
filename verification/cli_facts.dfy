/** What joining binaries amounts to, stated without the accumulators:
    each memory area contributes its decoded words to every MIF it names,
    binary after binary and area after area, and each MIF records the
    binaries it took words from at the depth it had then. */
module CliFacts {
  import opened Base
  import opened Numeric
  import opened Endian
  import opened Store
  import opened MifText
  import opened MifTextFacts
  import opened Cli

  /** One area joined into one MIF: the binary it came from, the MIF's
      label, the area's width and the area's words. */
  datatype Event = Event(bin: Path, target: Path, width: nat, words: seq<U128>)

  /** The words the events contribute to MIF `t`, in order. */
  function Joined(evs: seq<Event>, t: Path): seq<U128>
  {
    if |evs| == 0 then []
    else (if evs[0].target == t then evs[0].words else []) + Joined(evs[1..], t)
  }

  /** The area comments MIF `t` collects: each contributing binary at the
      address its words start at, counting from `at`. */
  function Logged(evs: seq<Event>, t: Path, at: nat): seq<(nat, Path)>
  {
    if |evs| == 0 then []
    else if evs[0].target == t then [(at, evs[0].bin)] + Logged(evs[1..], t, at + |evs[0].words|)
    else Logged(evs[1..], t, at)
  }

  function Targets(evs: seq<Event>): (r: seq<Path>)
    ensures |r| == |evs|
    ensures forall i :: 0 <= i < |evs| ==> r[i] == evs[i].target
  {
    seq(|evs|, i requires 0 <= i < |evs| => evs[i].target)
  }

  /** `order` followed by the labels of `ts` it lacks, in order of first
      appearance. */
  function Extend(order: seq<Path>, ts: seq<Path>): seq<Path>
    decreases |ts|
  {
    if |ts| == 0 then order
    else Extend(if ts[0] in order then order else order + [ts[0]], ts[1..])
  }

  predicate NoDup<T(==)>(s: seq<T>)
  {
    forall i, j :: 0 <= i < j < |s| ==> s[i] != s[j]
  }

  /** Every event joined into `t` has width `w`. */
  ghost predicate WidthsAgree(evs: seq<Event>, t: Path, w: nat)
  {
    forall i :: 0 <= i < |evs| && evs[i].target == t ==> evs[i].width == w
  }

  lemma {:induction false} JoinedAppend(a: seq<Event>, b: seq<Event>, t: Path)
    ensures Joined(a + b, t) == Joined(a, t) + Joined(b, t)
  {
    if |a| > 0 {
      assert (a + b)[1..] == a[1..] + b;
      JoinedAppend(a[1..], b, t);
      AppendAssoc(if a[0].target == t then a[0].words else [], Joined(a[1..], t), Joined(b, t));
    } else {
      assert a + b == b;
    }
  }

  lemma {:induction false} LoggedAppend(a: seq<Event>, b: seq<Event>, t: Path, at: nat)
    ensures Logged(a + b, t, at) == Logged(a, t, at) + Logged(b, t, at + |Joined(a, t)|)
  {
    if |a| > 0 {
      assert (a + b)[1..] == a[1..] + b;
      if a[0].target == t {
        LoggedAppend(a[1..], b, t, at + |a[0].words|);
        AppendAssoc([(at, a[0].bin)], Logged(a[1..], t, at + |a[0].words|), Logged(b, t, at + |Joined(a, t)|));
      } else {
        LoggedAppend(a[1..], b, t, at);
      }
    } else {
      assert a + b == b;
    }
  }

  lemma {:induction false} ExtendAppend(o: seq<Path>, a: seq<Path>, b: seq<Path>)
    ensures Extend(o, a + b) == Extend(Extend(o, a), b)
    decreases |a|
  {
    if |a| > 0 {
      assert (a + b)[1..] == a[1..] + b;
      ExtendAppend(if a[0] in o then o else o + [a[0]], a[1..], b);
    } else {
      assert a + b == b;
    }
  }

  /** The extended order holds exactly the labels of both. */
  lemma {:induction false} ExtendMembers(o: seq<Path>, ts: seq<Path>)
    ensures forall x :: x in Extend(o, ts) <==> x in o || x in ts
    decreases |ts|
  {
    if |ts| > 0 {
      var o' := if ts[0] in o then o else o + [ts[0]];
      ExtendMembers(o', ts[1..]);
      assert forall x :: x in ts <==> x == ts[0] || x in ts[1..];
    }
  }

  /** Extending never repeats a label. */
  lemma {:induction false} ExtendNoDup(o: seq<Path>, ts: seq<Path>)
    requires NoDup(o)
    ensures NoDup(Extend(o, ts))
    decreases |ts|
  {
    if |ts| > 0 {
      var o' := if ts[0] in o then o else o + [ts[0]];
      assert NoDup(o');
      ExtendNoDup(o', ts[1..]);
    }
  }

  lemma {:induction false} Untargeted(evs: seq<Event>, t: Path, at: nat)
    requires t !in Targets(evs)
    ensures Joined(evs, t) == [] && Logged(evs, t, at) == []
  {
    if |evs| > 0 {
      assert evs[0].target == Targets(evs)[0];
      assert Targets(evs[1..]) == Targets(evs)[1..];
      Untargeted(evs[1..], t, at);
    }
  }

  /** Store `m` is what the events make of MIF `t`. */
  ghost predicate Holds(m: Mif, evs: seq<Event>, t: Path)
  {
    && Valid(m)
    && Expand(m.words) == Joined(evs, t)
    && m.areas == Logged(evs, t, 0)
    && WidthsAgree(evs, t, m.width)
  }

  /** The accumulators are what the events make of them: one per label the
      events name, in order of first reference. */
  ghost predicate Reflects(accs: Accs, evs: seq<Event>)
  {
    && accs.order == Extend([], Targets(evs))
    && (forall t :: t in accs.mifs <==> t in accs.order)
    && (forall t :: t in accs.mifs ==> Holds(accs.mifs[t], evs, t))
  }

  lemma HoldsAfterJoin(m: Mif, evs: seq<Event>, t: Path, bin: Path, area: Mif)
    requires Holds(m, evs, t) && Valid(area) && m.width == area.width
    ensures Join(Store.Area(m, bin), area).status.Done?
    ensures Holds(Join(Store.Area(m, bin), area).mif, evs + [Event(bin, t, area.width, Expand(area.words))], t)
  {
    var ev := Event(bin, t, area.width, Expand(area.words));
    var m1 := Store.Area(m, bin);
    JoinSameWidth(m1, area);
    JoinedAppend(evs, [ev], t);
    LoggedAppend(evs, [ev], t, 0);
    ExpandLength(m.words);
    assert Joined([ev], t) == Expand(area.words) + [];
    assert Logged([ev], t, m.depth) == [(m.depth, bin)] + [];
  }

  lemma HoldsAfterOther(m: Mif, evs: seq<Event>, u: Path, ev: Event)
    requires Holds(m, evs, u) && ev.target != u
    ensures Holds(m, evs + [ev], u)
  {
    JoinedAppend(evs, [ev], u);
    LoggedAppend(evs, [ev], u, 0);
    assert Joined([ev], u) == [] + [];
    assert Logged([ev], u, |Joined(evs, u)|) == [];
  }

  lemma TargetsAppend(evs: seq<Event>, ev: Event)
    ensures Targets(evs + [ev]) == Targets(evs) + [ev.target]
  {
  }

  /** What one join changes: only the accumulator joined into, which is
      appended to the order if it is new. */
  lemma JoinOneOthers(accs: Accs, bin: Path, w: nat, area: Mif, t: Path)
    requires forall u :: u in accs.mifs <==> u in accs.order
    requires JoinOne(accs, bin, w, area, t).Ok?
    ensures var r := JoinOne(accs, bin, w, area, t).value;
      && r.order == Extend(accs.order, [t])
      && (forall u :: u in r.mifs <==> u in r.order)
      && (forall u :: u in r.mifs && u != t ==> u in accs.mifs && r.mifs[u] == accs.mifs[u])
  {
    var touched := Touch(accs, t, w).value;
    var e := Join(Store.Area(touched.mifs[t], bin), area);
    assert JoinOne(accs, bin, w, area, t).value == Accs(touched.order, touched.mifs[t := e.mif]);
    assert Extend(accs.order, [t]) == if t in accs.order then accs.order else accs.order + [t];
  }

  lemma JoinOneHolds(accs: Accs, evs: seq<Event>, bin: Path, w: nat, area: Mif, t: Path)
    requires Reflects(accs, evs) && Valid(area) && area.width == w
    requires JoinOne(accs, bin, w, area, t).Ok?
    ensures Holds(JoinOne(accs, bin, w, area, t).value.mifs[t], evs + [Event(bin, t, w, Expand(area.words))], t)
  {
    var touched := Touch(accs, t, w).value;
    if t !in accs.mifs {
      ExtendMembers([], Targets(evs));
      Untargeted(evs, t, 0);
      assert Holds(touched.mifs[t], evs, t);
    }
    HoldsAfterJoin(touched.mifs[t], evs, t, bin, area);
  }

  /** One join keeps the accumulators in step with the events, the join
      being the next event. */
  lemma JoinOneReflects(accs: Accs, evs: seq<Event>, bin: Path, w: nat, area: Mif, t: Path)
    requires Reflects(accs, evs) && Valid(area) && area.width == w
    requires JoinOne(accs, bin, w, area, t).Ok?
    ensures Reflects(JoinOne(accs, bin, w, area, t).value, evs + [Event(bin, t, w, Expand(area.words))])
  {
    var ev := Event(bin, t, w, Expand(area.words));
    var evs' := evs + [ev];
    TargetsAppend(evs, ev);
    ExtendAppend([], Targets(evs), [t]);
    JoinOneOthers(accs, bin, w, area, t);
    JoinOneHolds(accs, evs, bin, w, area, t);
    var r := JoinOne(accs, bin, w, area, t).value;
    forall u | u in r.mifs && u != t
      ensures Holds(r.mifs[u], evs', u)
    {
      HoldsAfterOther(accs.mifs[u], evs, u, ev);
    }
  }

  /** The events of joining one area's words into each of `ts`. */
  function TargetEvents(bin: Path, w: nat, words: seq<U128>, ts: seq<Path>): (r: seq<Event>)
    ensures |r| == |ts|
    ensures forall i :: 0 <= i < |ts| ==> r[i] == Event(bin, ts[i], w, words)
  {
    seq(|ts|, i requires 0 <= i < |ts| => Event(bin, ts[i], w, words))
  }

  lemma TargetEventsCons(bin: Path, w: nat, words: seq<U128>, ts: seq<Path>)
    requires |ts| > 0
    ensures TargetEvents(bin, w, words, ts) == [Event(bin, ts[0], w, words)] + TargetEvents(bin, w, words, ts[1..])
  {
  }

  lemma {:induction false} JoinTargetsReflect(accs: Accs, evs: seq<Event>, bin: Path, w: nat, area: Mif, ts: seq<Path>)
    requires Reflects(accs, evs) && Valid(area) && area.width == w
    requires JoinTargets(accs, bin, w, area, ts).Ok?
    ensures Reflects(JoinTargets(accs, bin, w, area, ts).value, evs + TargetEvents(bin, w, Expand(area.words), ts))
    decreases |ts|
  {
    var words := Expand(area.words);
    if |ts| > 0 {
      var ev := Event(bin, ts[0], w, words);
      var next := JoinOne(accs, bin, w, area, ts[0]).value;
      JoinOneReflects(accs, evs, bin, w, area, ts[0]);
      JoinTargetsReflect(next, evs + [ev], bin, w, area, ts[1..]);
      assert JoinTargets(accs, bin, w, area, ts) == JoinTargets(next, bin, w, area, ts[1..]);
      TargetEventsCons(bin, w, words, ts);
      AppendAssoc(evs, [ev], TargetEvents(bin, w, words, ts[1..]));
      assert (evs + [ev]) + TargetEvents(bin, w, words, ts[1..]) == evs + TargetEvents(bin, w, words, ts);
    } else {
      assert evs + [] == evs;
    }
  }

  /** The words of a memory area read at byte `pos`: `depth` words of the
      area's width in bytes, or none when the width is out of range or the
      bytes run out. */
  function AreaWords(bytes: seq<Byte>, pos: nat, area: Area): seq<U128>
  {
    var a := Align(area.width);
    if 1 <= area.width <= MaxWidth && pos + Span(area.depth, a) <= |bytes| then
      AlignBounds(area.width);
      DecodeWords(bytes, pos, area.depth, a, area.first)
    else []
  }

  /** The events of one memory area: none when it is skipped. */
  function AreaEvents(bin: Path, words: seq<U128>, area: Area): seq<Event>
  {
    match area.instr
    case Skips(_) => []
    case Joins(ts) => TargetEvents(bin, area.width, words, ts)
  }

  /** The events of a binary's memory areas, laid out back to back from
      byte `pos`. */
  function FileEvents(bin: Path, bytes: seq<Byte>, pos: nat, areas: seq<Area>): seq<Event>
    decreases |areas|
  {
    if |areas| == 0 then []
    else
      AreaEvents(bin, AreaWords(bytes, pos, areas[0]), areas[0])
        + FileEvents(bin, bytes, pos + Span(areas[0].depth, Align(areas[0].width)), areas[1..])
  }

  /** The events of all binaries, binary after binary. */
  function Events(files: seq<BinFile>): seq<Event>
  {
    if |files| == 0 then []
    else FileEvents(files[0].path, files[0].bytes, 0, files[0].areas) + Events(files[1..])
  }

  lemma ProcessAreaReflects(accs: Accs, evs: seq<Event>, bin: Path, bytes: seq<Byte>, pos: nat, area: Area)
    requires Reflects(accs, evs) && pos <= |bytes|
    requires ProcessArea(accs, bin, bytes, pos, area).Ok?
    ensures Reflects(ProcessArea(accs, bin, bytes, pos, area).value.0,
                     evs + AreaEvents(bin, AreaWords(bytes, pos, area), area))
  {
    var m := NewStore(area.width).value;
    var rd := Read(m, bytes, pos, area.depth, area.first);
    assert rd.status.Done?;
    assert Expand(rd.mif.words) == AreaWords(bytes, pos, area);
    match area.instr {
      case Skips(_) =>
        assert evs + [] == evs;
      case Joins(ts) =>
        JoinTargetsReflect(accs, evs, bin, area.width, rd.mif, ts);
    }
  }

  lemma FileEventsCons(bin: Path, bytes: seq<Byte>, pos: nat, next: nat, areas: seq<Area>)
    requires |areas| > 0 && next == pos + Span(areas[0].depth, Align(areas[0].width))
    ensures FileEvents(bin, bytes, pos, areas)
         == AreaEvents(bin, AreaWords(bytes, pos, areas[0]), areas[0]) + FileEvents(bin, bytes, next, areas[1..])
  {
  }

  lemma {:induction false} ProcessAreasReflects(accs: Accs, evs: seq<Event>, bin: Path, bytes: seq<Byte>, pos: nat, areas: seq<Area>)
    requires Reflects(accs, evs) && pos <= |bytes|
    requires ProcessAreas(accs, bin, bytes, pos, areas).Ok?
    ensures Reflects(ProcessAreas(accs, bin, bytes, pos, areas).value.0, evs + FileEvents(bin, bytes, pos, areas))
    decreases |areas|
  {
    if |areas| > 0 {
      var p := ProcessArea(accs, bin, bytes, pos, areas[0]).value;
      var here := AreaEvents(bin, AreaWords(bytes, pos, areas[0]), areas[0]);
      var later := FileEvents(bin, bytes, p.1, areas[1..]);
      ProcessAreaReflects(accs, evs, bin, bytes, pos, areas[0]);
      ProcessAreasReflects(p.0, evs + here, bin, bytes, p.1, areas[1..]);
      var res := ProcessAreas(accs, bin, bytes, pos, areas).value.0;
      assert res == ProcessAreas(p.0, bin, bytes, p.1, areas[1..]).value.0;
      assert p.1 == pos + Span(areas[0].depth, Align(areas[0].width));
      FileEventsCons(bin, bytes, pos, p.1, areas);
      AppendStep(evs, here, later, evs + here, (evs + here) + later);
    } else {
      assert ProcessAreas(accs, bin, bytes, pos, areas).value.0 == accs;
      assert FileEvents(bin, bytes, pos, areas) == [];
      assert evs + [] == evs;
    }
  }

  lemma ProcessFileReflects(accs: Accs, evs: seq<Event>, file: BinFile)
    requires Reflects(accs, evs)
    requires ProcessFile(accs, file).Ok?
    ensures Reflects(ProcessFile(accs, file).value, evs + FileEvents(file.path, file.bytes, 0, file.areas))
  {
    ProcessAreasReflects(accs, evs, file.path, file.bytes, 0, file.areas);
  }

  lemma {:induction false} ProcessFilesReflects(accs: Accs, evs: seq<Event>, files: seq<BinFile>)
    requires Reflects(accs, evs)
    requires ProcessFiles(accs, files).Ok?
    ensures Reflects(ProcessFiles(accs, files).value, evs + Events(files))
    decreases |files|
  {
    if |files| > 0 {
      var a := ProcessFile(accs, files[0]).value;
      var here := FileEvents(files[0].path, files[0].bytes, 0, files[0].areas);
      var later := Events(files[1..]);
      ProcessFileReflects(accs, evs, files[0]);
      ProcessFilesReflects(a, evs + here, files[1..]);
      assert ProcessFiles(accs, files).value == ProcessFiles(a, files[1..]).value;
      assert Events(files) == here + later;
      AppendStep(evs, here, later, evs + here, (evs + here) + later);
    } else {
      assert evs + [] == evs;
    }
  }

  /** A successful run consumes every byte of every binary. */
  lemma {:induction false} ProcessFilesConsumed(accs: Accs, files: seq<BinFile>)
    requires ProcessFiles(accs, files).Ok?
    ensures forall j :: 0 <= j < |files| ==> AreaBytes(files[j].areas) == |files[j].bytes|
    decreases |files|
  {
    if |files| > 0 {
      var f := ProcessFile(accs, files[0]);
      assert f.Ok?;
      var a := f.value;
      assert ProcessFiles(a, files[1..]) == ProcessFiles(accs, files);
      ProcessFilesConsumed(a, files[1..]);
      forall j | 0 <= j < |files|
        ensures AreaBytes(files[j].areas) == |files[j].bytes|
      {
        if j > 0 {
          assert files[j] == files[1..][j - 1];
        }
      }
    }
  }

  /** The text reads back as these area comments, this width and `words`
      as its content, address after address from 0. */
  ghost predicate ReadsBack(text: string, areas: seq<(nat, Path)>, width: nat, words: seq<U128>)
  {
    var d := ParseMif(text);
    && d.Some?
    && d.value.areas == areas && d.value.width == width && d.value.depth == |words|
    && Tiles(d.value.entries, 0, |words|)
    && EntryWords(d.value.entries) == words
  }

  lemma WriteReadsBack(m: Mif, areas: bool)
    requires Valid(m) && NoLineBreaks(m.areas)
    ensures ReadsBack(Write(m, areas), if areas then m.areas else [], m.width, Expand(m.words))
  {
    assert PositiveBulks(m.words);
    WriteParse(m, areas);
    EntriesRead(m.words);
    ReadsBackIntro(Write(m, areas), if areas then m.areas else [], m.width, Entries(m.words, 0), Expand(m.words));
  }

  lemma EntriesRead(runs: seq<Run>)
    requires PositiveBulks(runs)
    ensures Tiles(Entries(runs, 0), 0, |Expand(runs)|)
    ensures EntryWords(Entries(runs, 0)) == Expand(runs)
    ensures |Expand(runs)| == SumBulks(runs)
  {
    EntriesTile(runs, 0);
    ExpandLength(runs);
  }

  lemma ReadsBackIntro(text: string, areas: seq<(nat, Path)>, width: nat, es: seq<Entry>, words: seq<U128>)
    requires ParseMif(text) == Some(Doc(areas, width, |words|, es))
    requires Tiles(es, 0, |words|) && EntryWords(es) == words
    ensures ReadsBack(text, areas, width, words)
  {
  }

  lemma {:induction false} LoggedClean(evs: seq<Event>, t: Path, at: nat)
    requires forall i :: 0 <= i < |evs| ==> '\n' !in evs[i].bin
    ensures NoLineBreaks(Logged(evs, t, at))
  {
    if |evs| > 0 {
      LoggedClean(evs[1..], t, if evs[0].target == t then at + |evs[0].words| else at);
    }
  }

  lemma {:induction false} FileEventsBins(bin: Path, bytes: seq<Byte>, pos: nat, areas: seq<Area>)
    ensures forall i :: 0 <= i < |FileEvents(bin, bytes, pos, areas)| ==> FileEvents(bin, bytes, pos, areas)[i].bin == bin
    decreases |areas|
  {
    if |areas| > 0 {
      FileEventsBins(bin, bytes, pos + Span(areas[0].depth, Align(areas[0].width)), areas[1..]);
    }
  }

  lemma {:induction false} EventsClean(files: seq<BinFile>)
    requires forall j :: 0 <= j < |files| ==> '\n' !in files[j].path
    ensures forall i :: 0 <= i < |Events(files)| ==> '\n' !in Events(files)[i].bin
  {
    if |files| > 0 {
      FileEventsBins(files[0].path, files[0].bytes, 0, files[0].areas);
      EventsClean(files[1..]);
    }
  }

  /** An output reads back as what the events make of the MIF it is
      labelled with, at a width every event joined into it has. */
  ghost predicate OutputReadsBack(out: (Path, string), evs: seq<Event>, areas: bool)
  {
    exists w ::
      && ReadsBack(out.1, if areas then Logged(evs, out.0, 0) else [], w, Joined(evs, out.0))
      && WidthsAgree(evs, out.0, w)
  }

  /** What `join` produces, stated by the events alone: one MIF per label
      the areas name, in order of first reference and each once; each
      reads back as the words of every area joined into it, in the order
      the binaries and their areas are declared, with one area comment per
      joined area at the address its words start at (when comments are
      asked for), and with the width every area joined into it has. And
      every binary is consumed to its last byte by its areas. */
  lemma JoinAllReadsBack(files: seq<BinFile>, areas: bool)
    requires JoinAll(files, areas).Ok?
    requires forall j :: 0 <= j < |files| ==> '\n' !in files[j].path
    ensures var outs := JoinAll(files, areas).value;
      var evs := Events(files);
      var order := Extend([], Targets(evs));
      && |outs| == |order| && NoDup(order)
      && (forall t :: t in order <==> t in Targets(evs))
      && (forall i :: 0 <= i < |outs| ==> outs[i].0 == order[i])
      && (forall i :: 0 <= i < |outs| ==> OutputReadsBack(outs[i], evs, areas))
      && (forall j :: 0 <= j < |files| ==> AreaBytes(files[j].areas) == |files[j].bytes|)
  {
    var outs := JoinAll(files, areas).value;
    var evs := Events(files);
    var order := Extend([], Targets(evs));
    var start := Accs([], map[]);
    assert Reflects(start, []);
    var accs := ProcessFiles(start, files).value;
    ProcessFilesReflects(start, [], files);
    ProcessFilesConsumed(start, files);
    assert [] + evs == evs;
    ExtendMembers([], Targets(evs));
    ExtendNoDup([], Targets(evs));
    EventsClean(files);
    forall i | 0 <= i < |outs|
      ensures OutputReadsBack(outs[i], evs, areas)
    {
      var t := order[i];
      var m := accs.mifs[t];
      assert outs[i] == (t, Write(m, areas));
      LoggedClean(evs, t, 0);
      WriteReadsBack(m, areas);
      assert ReadsBack(outs[i].1, if areas then Logged(evs, t, 0) else [], m.width, Joined(evs, t));
      assert WidthsAgree(evs, t, m.width);
    }
  }

  /** Joining one area into a MIF fails exactly when an earlier area
      joined into it has a different width, and then with that MIF's
      label. */
  lemma JoinOneWidth(accs: Accs, evs: seq<Event>, bin: Path, w: nat, area: Mif, t: Path)
    requires Reflects(accs, evs) && Valid(area) && area.width == w
    ensures JoinOne(accs, bin, w, area, t).Err? <==> exists i :: 0 <= i < |evs| && evs[i].target == t && evs[i].width != w
    ensures JoinOne(accs, bin, w, area, t).Err? ==> JoinOne(accs, bin, w, area, t).error == DifferentWidth(t)
  {
    ExtendMembers([], Targets(evs));
    var r := JoinOne(accs, bin, w, area, t);
    if t in accs.mifs {
      var m := accs.mifs[t];
      KnownWidth(evs, t, m.width, w);
      if m.width == w {
        JoinSameWidth(Store.Area(m, bin), area);
        assert r == Ok(Accs(accs.order, accs.mifs[t := Join(Store.Area(m, bin), area).mif]));
      } else {
        assert r == Err(DifferentWidth(t));
      }
    } else {
      var touched := Touch(accs, t, w).value;
      var m := touched.mifs[t];
      JoinSameWidth(Store.Area(m, bin), area);
      NoEvents(evs, t);
      assert r == Ok(Accs(touched.order, touched.mifs[t := Join(Store.Area(m, bin), area).mif]));
    }
  }

  lemma KnownWidth(evs: seq<Event>, t: Path, known: nat, w: nat)
    requires t in Targets(evs) && WidthsAgree(evs, t, known)
    ensures (exists i :: 0 <= i < |evs| && evs[i].target == t && evs[i].width != w) <==> known != w
  {
    var i :| 0 <= i < |evs| && Targets(evs)[i] == t;
    assert evs[i].width == known;
  }

  lemma NoEvents(evs: seq<Event>, t: Path)
    requires t !in Targets(evs)
    ensures forall i :: 0 <= i < |evs| ==> evs[i].target != t
  {
    assert forall i :: 0 <= i < |evs| ==> evs[i].target == Targets(evs)[i];
  }

  /** The words of runs of positive bulk are all skippable exactly when
      the runs' words are. */
  lemma {:induction false} RunsSkippable(runs: seq<Run>, skips: seq<Word>)
    requires forall i :: 0 <= i < |runs| ==> runs[i].bulk > 0
    ensures AllSkippable(runs, skips) <==> forall k :: 0 <= k < |Expand(runs)| ==> Skippable(Expand(runs)[k], skips)
  {
    if |runs| > 0 {
      var head := Repeat(runs[0].word, runs[0].bulk);
      var rest := Expand(runs[1..]);
      var all := Expand(runs);
      RunsSkippable(runs[1..], skips);
      assert AllSkippable(runs[1..], skips) ==> forall k :: 0 <= k < |Expand(runs[1..])| ==> Skippable(Expand(runs[1..])[k], skips);
      assert all == head + rest;
      if AllSkippable(runs, skips) {
        forall i | 0 <= i < |runs| - 1
          ensures Skippable(runs[1..][i].word, skips)
        {
          assert runs[1..][i] == runs[i + 1];
        }
        assert AllSkippable(runs[1..], skips);
        forall k | 0 <= k < |all|
          ensures Skippable(all[k], skips)
        {
          if k >= |head| {
            assert all[k] == rest[k - |head|];
          } else {
            assert all[k] == head[k] == runs[0].word;
            assert Skippable(runs[0].word, skips);
          }
        }
      }
      if forall k :: 0 <= k < |all| ==> Skippable(all[k], skips) {
        forall k | 0 <= k < |rest|
          ensures Skippable(rest[k], skips)
        {
          assert rest[k] == all[k + |head|];
        }
        assert all[0] == runs[0].word;
        forall i | 0 <= i < |runs|
          ensures Skippable(runs[i].word, skips)
        {
          if i > 0 {
            assert runs[i] == runs[1..][i - 1];
          }
        }
      }
    }
  }

  /** The area's words can all be read from byte `pos` and each fits the
      area's width. */
  ghost predicate ReadsArea(bytes: seq<Byte>, pos: nat, area: Area)
  {
    && 1 <= area.width <= MaxWidth
    && (PowPositive(2, area.width);
        AllDecodedFit(bytes, pos, area.depth, Align(area.width), area.first, Pow(2, area.width) - 1))
  }

  /** The words pass a skip list: it is empty or holds every one of them. */
  ghost predicate PassesSkips(ws: seq<U128>, skips: seq<Word>)
  {
    |skips| == 0 || forall k :: 0 <= k < |ws| ==> Skippable(ws[k], skips)
  }

  /** A skipped area passes exactly when it is read in full and its words
      pass its skip list; read in full but not passing, it is rejected
      naming the binary. */
  lemma SkipArea(accs: Accs, bin: Path, bytes: seq<Byte>, pos: nat, area: Area)
    requires pos <= |bytes| && area.instr.Skips? && 1 <= area.width <= MaxWidth
    ensures var ws := AreaWords(bytes, pos, area);
      var r := ProcessArea(accs, bin, bytes, pos, area);
      && (r.Ok? <==> ReadsArea(bytes, pos, area) && PassesSkips(ws, area.instr.skips))
      && (r == Err(InvalidSkip(bin)) <==> ReadsArea(bytes, pos, area) && !PassesSkips(ws, area.instr.skips))
  {
    var skips := area.instr.skips;
    var m := NewStore(area.width).value;
    var rd := Read(m, bytes, pos, area.depth, area.first);
    ReadArea(bytes, pos, area);
    if rd.status.Done? {
      SkipDecision(rd.mif.words, skips, AreaWords(bytes, pos, area));
    }
    assert ProcessArea(accs, bin, bytes, pos, area)
        == if rd.status.Failed? then Err(Lib(rd.status.error))
           else if |skips| > 0 && !AllSkippable(rd.mif.words, skips) then Err(InvalidSkip(bin))
           else Ok((accs, rd.pos));
  }

  lemma SkipDecision(runs: seq<Run>, skips: seq<Word>, ws: seq<U128>)
    requires forall i :: 0 <= i < |runs| ==> runs[i].bulk > 0
    requires Expand(runs) == ws
    ensures (|skips| > 0 && !AllSkippable(runs, skips)) <==> !PassesSkips(ws, skips)
  {
    RunsSkippable(runs, skips);
  }

  /** Reading an area into a new store of its width succeeds exactly when
      the area reads in full; the store then holds the area's words and
      the position moves past them. */
  lemma ReadArea(bytes: seq<Byte>, pos: nat, area: Area)
    requires pos <= |bytes| && 1 <= area.width <= MaxWidth
    ensures var rd := Read(NewStore(area.width).value, bytes, pos, area.depth, area.first);
      && (rd.status.Done? <==> ReadsArea(bytes, pos, area))
      && Valid(rd.mif) && rd.mif.width == area.width
      && (rd.status.Done? ==>
            && Expand(rd.mif.words) == AreaWords(bytes, pos, area)
            && rd.pos == pos + Span(area.depth, Align(area.width)))
  {
    var m := NewStore(area.width).value;
    var rd := Read(m, bytes, pos, area.depth, area.first);
    ReadFromEmpty(area.width, bytes, pos, area.depth, area.first);
    if rd.status.Done? {
      assert Expand(m.words) == [];
      assert Expand(rd.mif.words) == [] + DecodeWords(bytes, pos, area.depth, Align(area.width), area.first);
    }
  }

  /** The two halves of a configured 128-bit word are recovered from its
      value: distinct halves make distinct words. */
  lemma AsWordHalves(w: Word)
    requires w.Two?
    ensures AsWord(w) / TWO64 == w.msb && AsWord(w) % TWO64 == w.lsb
  {
    var x := AsWord(w);
    assert x == w.msb * TWO64 + w.lsb;
  }

  lemma WholeWords(count: nat, a: nat)
    requires a > 0
    ensures (count / a) * a == count <==> count % a == 0
  {
    assert count == (count / a) * a + count % a;
  }

  /** A fresh store of a valid width is valid, empty and has that width. */
  lemma FreshStore(width: nat)
    requires 1 <= width <= MaxWidth
    ensures NewStore(width).Ok?
    ensures var m := NewStore(width).value;
      Valid(m) && m.width == width && MaxValue(m) == Pow(2, width) - 1
  {
  }

  lemma ReadFromEmpty(width: nat, bytes: seq<Byte>, pos: nat, n: nat, first: First)
    requires 1 <= width <= MaxWidth && pos <= |bytes|
    ensures var m := NewStore(width).value;
      (Read(m, bytes, pos, n, first).status.Done? <==> AllDecodedFit(bytes, pos, n, Align(width), first, Pow(2, width) - 1))
  {
    FreshStore(width);
    ReadValid(NewStore(width).value, bytes, pos, n, first);
  }

  /** Reading into a valid store succeeds exactly when every word decodes
      within its maximum value. */
  lemma ReadValid(m: Mif, bytes: seq<Byte>, pos: nat, n: nat, first: First)
    requires Valid(m) && pos <= |bytes|
    ensures Read(m, bytes, pos, n, first).status.Done? <==> AllDecodedFit(bytes, pos, n, Align(m.width), first, MaxValue(m))
  {
  }

  /** `dump` fails on an out-of-range width first, then on a count that is
      not a whole number of words, then on a word it cannot read or that
      does not fit the width; otherwise it succeeds. */
  lemma DumpOutcome(bytes: seq<Byte>, count: nat, width: nat, first: First)
    ensures !(1 <= width <= MaxWidth) ==> Dump(bytes, count, width, first) == Err(Lib(WidthOutOfRange(width, MaxWidth)))
    ensures 1 <= width <= MaxWidth ==>
      var a := Align(width);
      && (Dump(bytes, count, width, first) == Err(NoIntegralMultiple) <==> count % a != 0)
      && (Dump(bytes, count, width, first).Ok? <==>
            count % a == 0 && AllDecodedFit(bytes, 0, count / a, a, first, Pow(2, width) - 1))
  {
    if 1 <= width <= MaxWidth {
      var m := NewStore(width).value;
      var a := Align(width);
      var depth := count / a;
      WholeWords(count, a);
      if count % a != 0 {
        assert depth * a != count;
        assert Dump(bytes, count, width, first) == Err(NoIntegralMultiple);
      } else {
        assert depth * a == count;
        var rd := Read(m, bytes, 0, depth, first);
        ReadFromEmpty(width, bytes, 0, depth, first);
        assert Dump(bytes, count, width, first)
            == if rd.status.Failed? then Err(Lib(rd.status.error)) else Ok(Write(rd.mif, false));
        assert Dump(bytes, count, width, first).Ok? <==> AllDecodedFit(bytes, 0, depth, a, first, Pow(2, width) - 1);
      }
    }
  }

  /** What `dump` writes reads back, without area comments, as the given
      width and the words of the first `count` bytes, `count` being a
      whole number of words. */
  lemma DumpReadsBack(bytes: seq<Byte>, count: nat, width: nat, first: First)
    requires Dump(bytes, count, width, first).Ok?
    ensures 1 <= width <= MaxWidth
    ensures var a := Align(width);
      && Span(count / a, a) == count && count <= |bytes|
      && ReadsBack(Dump(bytes, count, width, first).value, [], width, DecodeWords(bytes, 0, count / a, a, first))
  {
    var m := NewStore(width).value;
    var a := Align(width);
    var depth := count / a;
    SpanProduct(depth, a);
    var rd := Read(m, bytes, 0, depth, first);
    WriteReadsBack(rd.mif, false);
  }
}
