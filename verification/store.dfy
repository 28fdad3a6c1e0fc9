/** The MIF word store (`Mif<u128>` of the library): a run-length
    collapsed sequence of (word, bulk) runs with its word width, its
    depth in words and a log of labelled memory areas.

    The store's operations mutate it in place in the library. Here each
    mutating operation returns the store as it is after the call together
    with the status of the call, so that what a failed call leaves behind
    can be stated. */
module Store {
  import opened Base
  import opened Numeric
  import opened Endian

  /** One word and how many times it repeats (its bulk). */
  datatype Run = Run(word: U128, bulk: nat)

  /** The word store. `areas` holds (address in words, label) pairs. */
  datatype Mif = Mif(width: nat, depth: nat, words: seq<Run>, areas: seq<(nat, Path)>)

  /** A store after a mutating call, and how the call ended. */
  datatype Effect = Effect(mif: Mif, status: Status)

  /** A store after a read, the reader's position after it, and how the
      read ended. */
  datatype ReadEffect = ReadEffect(mif: Mif, pos: nat, status: Status)

  /** The word sequence the runs stand for. */
  function Expand(runs: seq<Run>): seq<U128>
  {
    if |runs| == 0 then [] else Repeat(runs[0].word, runs[0].bulk) + Expand(runs[1..])
  }

  /** Total bulk of the runs. */
  function SumBulks(runs: seq<Run>): nat
  {
    if |runs| == 0 then 0 else runs[0].bulk + SumBulks(runs[1..])
  }

  lemma {:induction false} ExpandAppend(a: seq<Run>, b: seq<Run>)
    ensures Expand(a + b) == Expand(a) + Expand(b)
    ensures SumBulks(a + b) == SumBulks(a) + SumBulks(b)
  {
    if |a| > 0 {
      assert (a + b)[1..] == a[1..] + b;
      ExpandAppend(a[1..], b);
    } else {
      assert a + b == b;
    }
  }

  lemma AppendAssoc<T>(a: seq<T>, b: seq<T>, c: seq<T>)
    ensures (a + b) + c == a + (b + c)
  {
  }

  lemma {:induction false} ExpandLength(runs: seq<Run>)
    ensures |Expand(runs)| == SumBulks(runs)
  {
    if |runs| > 0 {
      ExpandLength(runs[1..]);
    }
  }

  /** No two adjacent runs hold the same word. */
  predicate Collapsed(runs: seq<Run>)
  {
    forall i :: 0 <= i < |runs| - 1 ==> runs[i].word != runs[i + 1].word
  }

  /** Area addresses never decrease and never pass the depth. */
  predicate AreasOrdered(areas: seq<(nat, Path)>, depth: nat)
  {
    && (forall i :: 0 <= i < |areas| ==> areas[i].0 <= depth)
    && (forall i :: 0 <= i < |areas| - 1 ==> areas[i].0 <= areas[i + 1].0)
  }

  /** The invariant every store keeps: its fields are private and every
      operation below preserves it. */
  predicate Valid(m: Mif)
  {
    && 1 <= m.width <= MaxWidth
    && (forall i :: 0 <= i < |m.words| ==> m.words[i].bulk > 0 && m.words[i].word < Pow(2, m.width))
    && Collapsed(m.words)
    && m.depth == SumBulks(m.words)
    && AreasOrdered(m.areas, m.depth)
  }

  /** The empty store of the given width; the width must lie in
      [1, MaxWidth]. */
  function New(width: nat): (r: Result<Mif, Error>)
    ensures r.Ok? <==> 1 <= width <= MaxWidth
    ensures r.Ok? ==> Valid(r.value) && r.value.width == width
    ensures r.Ok? ==> r.value.depth == 0 && Expand(r.value.words) == [] && r.value.areas == []
    ensures r.Err? ==> r.error == WidthOutOfRange(width, MaxWidth)
  {
    if 1 <= width <= MaxWidth then Ok(Mif(width, 0, [], []))
    else Err(WidthOutOfRange(width, MaxWidth))
  }

  /** The largest word the store accepts (`max_value`). */
  function MaxValue(m: Mif): (r: U128)
    ensures 1 <= m.width <= MaxWidth ==> r == Pow(2, m.width) - 1
  {
    MaxValueOf(m.width)
  }

  /** The largest word of `width` bits, computed as the library does:
      one shifted left by the width taken as a 32-bit amount (zero when
      the shift overflows), minus one with wrap-around. At width 128 the
      shift overflows and the subtraction wraps to all ones. */
  function MaxValueOf(width: nat): (r: U128)
    ensures 1 <= width <= MaxWidth ==> r == Pow(2, width) - 1
  {
    var shifted := match CheckedShl(1, width % 0x1_0000_0000) case Some(v) => v case None => 0;
    if 1 <= width <= MaxWidth then
      MaxValueMeaning(width, shifted);
      WrappingSub(shifted, 1)
    else
      WrappingSub(shifted, 1)
  }

  lemma MaxValueMeaning(width: nat, shifted: U128)
    requires 1 <= width <= MaxWidth
    requires shifted == match CheckedShl(1, width % 0x1_0000_0000) case Some(v) => v case None => 0
    ensures WrappingSub(shifted, 1) == Pow(2, width) - 1
  {
    ModSmall(width, 0x1_0000_0000);
    Pow2Constants();
    WrappingSubFacts(shifted, 1);
    if width < 128 {
      ShlOne(width);
    }
  }

  /** One shifted left by less than the type's width is a power of two. */
  lemma ShlOne(n: nat)
    requires n < 128
    ensures Shl(1, n) == Pow(2, n) && 1 <= Pow(2, n) < TWO128
  {
    Pow2Constants();
    PowStrictlyMonotonic(2, n, 128);
    PowPositive(2, n);
    var p := Pow(2, n);
    assert 1 * p == p;
    assert p % TWO128 == p;
  }

  /** Records a memory area labelled `name` at the current depth. */
  function Area(m: Mif, name: Path): (r: Mif)
    ensures r.areas == m.areas + [(m.depth, name)]
    ensures r.width == m.width && r.depth == m.depth && r.words == m.words
    ensures Valid(m) ==> Valid(r)
  {
    m.(areas := m.areas + [(m.depth, name)])
  }

  /** The last run holds `word`, so a push of it merges into that run. */
  predicate Merges(m: Mif, word: U128)
  {
    |m.words| > 0 && m.words[|m.words| - 1].word == word
  }

  /** A push of `word` is accepted: it merges, or it fits the width. */
  predicate Accepts(m: Mif, word: U128)
  {
    Merges(m, word) || word <= MaxValue(m)
  }

  /** Pushes `bulk` copies of `word`: merges them into the last run when
      it holds the same word, and otherwise checks the word against the
      width and appends a new run (none for a bulk of zero). The check
      comes first, so a failed push changes nothing. */
  function Push(m: Mif, word: U128, bulk: nat): (r: Effect)
    ensures r.status.Done? <==> Accepts(m, word)
    ensures r.status.Done? ==>
      && Expand(r.mif.words) == Expand(m.words) + Repeat(word, bulk)
      && r.mif.depth == m.depth + bulk
      && r.mif.width == m.width && r.mif.areas == m.areas
      && (Valid(m) ==> Valid(r.mif))
    ensures r.status.Failed? ==>
      r.mif == m && r.status.error == ValueOutOfWidth(m.depth, m.width)
  {
    var n := |m.words|;
    if n > 0 && m.words[n - 1].word == word then
      var init := m.words[..n - 1];
      var last := m.words[n - 1];
      var r := Effect(m.(words := init + [Run(word, last.bulk + bulk)], depth := m.depth + bulk), Done);
      PushMerged(m, word, bulk);
      r
    else if word > MaxValue(m) then
      Effect(m, Failed(ValueOutOfWidth(m.depth, m.width)))
    else
      var r := Effect(m.(words := if bulk > 0 then m.words + [Run(word, bulk)] else m.words,
                         depth := m.depth + bulk), Done);
      PushAppended(m, word, bulk);
      r
  }

  lemma PushMerged(m: Mif, word: U128, bulk: nat)
    requires |m.words| > 0 && m.words[|m.words| - 1].word == word
    ensures var n := |m.words|;
      var words' := m.words[..n - 1] + [Run(word, m.words[n - 1].bulk + bulk)];
      && Expand(words') == Expand(m.words) + Repeat(word, bulk)
      && (Valid(m) ==> Valid(m.(words := words', depth := m.depth + bulk)))
  {
    var n := |m.words|;
    var init := m.words[..n - 1];
    var last := m.words[n - 1];
    assert m.words == init + [last];
    ExpandAppend(init, [last]);
    ExpandAppend(init, [Run(word, last.bulk + bulk)]);
    RepeatAdd(word, last.bulk, bulk);
    assert Expand([last]) == Repeat(word, last.bulk);
    assert Expand([Run(word, last.bulk + bulk)]) == Repeat(word, last.bulk + bulk);
    AppendAssoc(Expand(init), Repeat(word, last.bulk), Repeat(word, bulk));
    if Valid(m) {
      PushMergedValid(m, word, bulk);
    }
  }

  lemma PushMergedValid(m: Mif, word: U128, bulk: nat)
    requires Valid(m) && |m.words| > 0 && m.words[|m.words| - 1].word == word
    ensures var n := |m.words|;
      var words' := m.words[..n - 1] + [Run(word, m.words[n - 1].bulk + bulk)];
      Valid(m.(words := words', depth := m.depth + bulk))
  {
    var n := |m.words|;
    var init := m.words[..n - 1];
    var last := m.words[n - 1];
    var words' := init + [Run(word, last.bulk + bulk)];
    assert m.words == init + [last];
    ExpandAppend(init, [last]);
    ExpandAppend(init, [Run(word, last.bulk + bulk)]);
    assert SumBulks([last]) == last.bulk;
    assert SumBulks([Run(word, last.bulk + bulk)]) == last.bulk + bulk;
    assert forall i :: 0 <= i < n - 1 ==> words'[i] == m.words[i];
    assert Collapsed(words');
  }

  lemma PushAppended(m: Mif, word: U128, bulk: nat)
    requires !(|m.words| > 0 && m.words[|m.words| - 1].word == word)
    requires word <= MaxValue(m)
    ensures var words' := if bulk > 0 then m.words + [Run(word, bulk)] else m.words;
      && Expand(words') == Expand(m.words) + Repeat(word, bulk)
      && (Valid(m) ==> Valid(m.(words := words', depth := m.depth + bulk)))
  {
    if bulk > 0 {
      ExpandAppend(m.words, [Run(word, bulk)]);
      assert Expand([Run(word, bulk)]) == Repeat(word, bulk);
      if Valid(m) {
        PushAppendedValid(m, word, bulk);
      }
    } else {
      assert Repeat(word, bulk) == [];
    }
  }

  lemma PushAppendedValid(m: Mif, word: U128, bulk: nat)
    requires Valid(m) && bulk > 0
    requires !(|m.words| > 0 && m.words[|m.words| - 1].word == word)
    requires word <= MaxValue(m)
    ensures Valid(m.(words := m.words + [Run(word, bulk)], depth := m.depth + bulk))
  {
    var words' := m.words + [Run(word, bulk)];
    ExpandAppend(m.words, [Run(word, bulk)]);
    assert SumBulks([Run(word, bulk)]) == bulk;
    assert word < Pow(2, m.width);
    assert Collapsed(words');
  }

  /** Every run's word is at most `max`. */
  predicate AllFit(runs: seq<Run>, max: nat)
  {
    forall i :: 0 <= i < |runs| ==> runs[i].word <= max
  }

  /** Pushes every run of `runs` in order, stopping at the first failed
      push; the runs pushed before it stay merged. */
  function JoinRuns(m: Mif, runs: seq<Run>): (r: Effect)
    ensures r.mif.width == m.width && r.mif.areas == m.areas
    ensures r.status.Done? ==>
      && Expand(r.mif.words) == Expand(m.words) + Expand(runs)
      && r.mif.depth == m.depth + SumBulks(runs)
    ensures Valid(m) ==> Valid(r.mif)
    ensures Valid(m) ==> (r.status.Done? <==> AllFit(runs, MaxValue(m)))
    ensures r.status.Failed? ==> exists k :: 0 <= k < |runs| && JoinStoppedAt(m, runs, k, r)
    decreases |runs|
  {
    if |runs| == 0 then Effect(m, Done)
    else
      var e := Push(m, runs[0].word, runs[0].bulk);
      if e.status.Failed? then
        assert runs[..0] == [];
        assert JoinStoppedAt(m, runs, 0, e);
        e
      else
        var r := JoinRuns(e.mif, runs[1..]);
        JoinRunsStep(m, runs, e.mif, r);
        r
  }

  /** What `JoinRuns(m, runs)` promises of its result `r`. */
  ghost predicate JoinPost(m: Mif, runs: seq<Run>, r: Effect)
  {
    && r.mif.width == m.width && r.mif.areas == m.areas
    && (r.status.Done? ==>
      && Expand(r.mif.words) == Expand(m.words) + Expand(runs)
      && r.mif.depth == m.depth + SumBulks(runs))
    && (Valid(m) ==> Valid(r.mif))
    && (Valid(m) ==> (r.status.Done? <==> AllFit(runs, MaxValue(m))))
    && (r.status.Failed? ==> exists k :: 0 <= k < |runs| && JoinStoppedAt(m, runs, k, r))
  }

  /** The join of `runs` into `m` stopped at run `k`: that run's word does
      not fit the width, the runs before it are merged, and in a valid
      store every run before it fits, so `k` is the first that does not. */
  ghost predicate JoinStoppedAt(m: Mif, runs: seq<Run>, k: nat, r: Effect)
    requires k < |runs|
  {
    && r.status == Failed(ValueOutOfWidth(r.mif.depth, m.width))
    && runs[k].word > MaxValue(m)
    && (Valid(m) ==> AllFit(runs[..k], MaxValue(m)))
    && Expand(r.mif.words) == Expand(m.words) + Expand(runs[..k])
    && r.mif.depth == m.depth + SumBulks(runs[..k])
  }

  /** One step of `JoinRuns`: a successful push of the first run into `m`
      giving `m1`, then the join of the remaining runs into `m1`. */
  lemma JoinRunsStep(m: Mif, runs: seq<Run>, m1: Mif, r: Effect)
    requires |runs| > 0
    requires (|m.words| > 0 && m.words[|m.words| - 1].word == runs[0].word) || runs[0].word <= MaxValue(m)
    requires m1.width == m.width && m1.areas == m.areas
    requires Expand(m1.words) == Expand(m.words) + Repeat(runs[0].word, runs[0].bulk)
    requires m1.depth == m.depth + runs[0].bulk
    requires Valid(m) ==> Valid(m1)
    requires JoinPost(m1, runs[1..], r)
    ensures JoinPost(m, runs, r)
  {
    assert MaxValue(m1) == MaxValue(m);
    if Valid(m) {
      JoinStepFit(m, runs);
    }
    if r.status.Done? {
      JoinStepDone(Expand(m.words), runs, Expand(m1.words), Expand(r.mif.words));
    } else {
      var k :| 0 <= k < |runs[1..]| && JoinStoppedAt(m1, runs[1..], k, r);
      JoinStepFailed(m, runs, m1, r, k);
      assert JoinStoppedAt(m, runs, k + 1, r);
    }
  }

  /** In a valid store the first run of a join always fits when it merges
      into the last run, so the join succeeds iff every run fits. */
  lemma JoinStepFit(m: Mif, runs: seq<Run>)
    requires Valid(m) && |runs| > 0
    requires (|m.words| > 0 && m.words[|m.words| - 1].word == runs[0].word) || runs[0].word <= MaxValue(m)
    ensures runs[0].word <= MaxValue(m)
    ensures AllFit(runs, MaxValue(m)) <==> AllFit(runs[1..], MaxValue(m))
  {
    var n := |m.words|;
    if n > 0 && m.words[n - 1].word == runs[0].word {
      assert m.words[n - 1].word < Pow(2, m.width);
    }
    assert forall i :: 1 <= i < |runs| ==> runs[i] == runs[1..][i - 1];
  }

  lemma JoinStepDone(before: seq<U128>, runs: seq<Run>, mid: seq<U128>, after: seq<U128>)
    requires |runs| > 0
    requires mid == before + Repeat(runs[0].word, runs[0].bulk)
    requires after == mid + Expand(runs[1..])
    ensures after == before + Expand(runs)
  {
    AppendStep(before, Repeat(runs[0].word, runs[0].bulk), Expand(runs[1..]), mid, after);
  }

  lemma JoinStepFailed(m: Mif, runs: seq<Run>, m1: Mif, r: Effect, k: nat)
    requires |runs| > 0 && k < |runs| - 1
    requires m1.width == m.width
    requires Expand(m1.words) == Expand(m.words) + Repeat(runs[0].word, runs[0].bulk)
    requires m1.depth == m.depth + runs[0].bulk
    requires Valid(m) ==> Valid(m1) && runs[0].word <= MaxValue(m)
    requires JoinStoppedAt(m1, runs[1..], k, r)
    ensures JoinStoppedAt(m, runs, k + 1, r)
  {
    var rest := runs[1..];
    var head := Repeat(runs[0].word, runs[0].bulk);
    assert MaxValue(m1) == MaxValue(m);
    assert runs[..k + 1] == [runs[0]] + rest[..k];
    ExpandAppend([runs[0]], rest[..k]);
    assert Expand([runs[0]]) == head && SumBulks([runs[0]]) == runs[0].bulk;
    AppendAssoc(Expand(m.words), head, Expand(rest[..k]));
    assert runs[k + 1] == rest[k];
  }

  /** Joins in another store: its runs pushed one after another. */
  function Join(m: Mif, other: Mif): (r: Effect)
    ensures r.mif.width == m.width && r.mif.areas == m.areas
    ensures r.status.Done? ==>
      && Expand(r.mif.words) == Expand(m.words) + Expand(other.words)
      && r.mif.depth == m.depth + SumBulks(other.words)
    ensures Valid(m) ==> Valid(r.mif)
    ensures Valid(m) ==> (r.status.Done? <==>
      forall i :: 0 <= i < |other.words| ==> other.words[i].word <= MaxValue(m))
    ensures r.status.Failed? ==> exists k :: 0 <= k < |other.words| && JoinStoppedAt(m, other.words, k, r)
  {
    JoinRuns(m, other.words)
  }

  /** Joining a valid store into a valid store of the same width never
      fails, and the joined depth is the sum of both depths. */
  lemma JoinSameWidth(m: Mif, other: Mif)
    requires Valid(m) && Valid(other) && m.width == other.width
    ensures Join(m, other).status.Done?
    ensures Join(m, other).mif.depth == m.depth + other.depth
  {
    assert MaxValue(m) == MaxValue(other);
  }

  /** The words of `n` consecutive chunks of `align` bytes from `pos`. */
  function DecodeWords(bytes: seq<Byte>, pos: nat, n: nat, align: nat, first: First): (r: seq<U128>)
    requires align <= MaxAlign && pos + Span(n, align) <= |bytes|
    ensures |r| == n
    decreases n
  {
    if n == 0 then []
    else [Decode(bytes[pos..pos + align], first)] + DecodeWords(bytes, pos + align, n - 1, align, first)
  }

  /** Every decoded word of `n` chunks of `align` bytes from `pos`
      exists and is at most `max`. */
  predicate AllDecodedFit(bytes: seq<Byte>, pos: nat, n: nat, align: nat, first: First, max: nat)
    requires align <= MaxAlign
  {
    && pos + Span(n, align) <= |bytes|
    && AllAtMost(DecodeWords(bytes, pos, n, align, first), max)
  }

  /** Every word of `ws` is at most `max`. */
  predicate AllAtMost(ws: seq<U128>, max: nat)
  {
    forall i :: 0 <= i < |ws| ==> ws[i] <= max
  }

  lemma AllAtMostAppend(a: seq<U128>, b: seq<U128>, max: nat)
    ensures AllAtMost(a + b, max) <==> AllAtMost(a, max) && AllAtMost(b, max)
  {
    if AllAtMost(a, max) && AllAtMost(b, max) {
      forall i | 0 <= i < |a + b|
        ensures (a + b)[i] <= max
      {
        if i >= |a| {
          assert (a + b)[i] == b[i - |a|];
        }
      }
    }
    if AllAtMost(a + b, max) {
      forall i | 0 <= i < |a|
        ensures a[i] <= max
      {
        assert a[i] == (a + b)[i];
      }
      forall i | 0 <= i < |b|
        ensures b[i] <= max
      {
        assert b[i] == (a + b)[i + |a|];
      }
    }
  }

  /** All n words fit iff the first one does and the n - 1 after it fit. */
  lemma AllDecodedFitStep(bytes: seq<Byte>, pos: nat, n: nat, a: nat, first: First, max: nat)
    requires n > 0 && a <= MaxAlign && pos + a <= |bytes|
    ensures AllDecodedFit(bytes, pos, n, a, first, max) <==>
      Decode(bytes[pos..pos + a], first) <= max && AllDecodedFit(bytes, pos + a, n - 1, a, first, max)
  {
    if pos + Span(n, a) <= |bytes| {
      var w := Decode(bytes[pos..pos + a], first);
      var rest := DecodeWords(bytes, pos + a, n - 1, a, first);
      assert DecodeWords(bytes, pos, n, a, first) == [w] + rest;
      AllAtMostAppend([w], rest, max);
      assert [w][0] == w;
    }
  }

  /** Reads `n` words of `Align(width)` bytes from `bytes` at `pos`, each
      decoded in byte order `first` and pushed with bulk one. A read that
      runs out of bytes fails as an exact read does (the bytes it reached
      are consumed); a word that does not fit the width fails the push.
      Either way the words before the failing one stay pushed. */
  function Read(m: Mif, bytes: seq<Byte>, pos: nat, n: nat, first: First): (r: ReadEffect)
    requires 1 <= m.width <= MaxWidth && pos <= |bytes|
    ensures r.mif.width == m.width && r.mif.areas == m.areas
    ensures r.mif.depth >= m.depth && r.pos <= |bytes|
    ensures Valid(m) ==> (r.status.Done? <==> AllDecodedFit(bytes, pos, n, Align(m.width), first, MaxValue(m)))
    ensures r.status.Done? ==>
      && r.pos == pos + Span(n, Align(m.width))
      && Expand(r.mif.words) == Expand(m.words) + DecodeWords(bytes, pos, n, Align(m.width), first)
      && r.mif.depth == m.depth + n
    ensures Valid(m) ==> Valid(r.mif)
    ensures r.status.Failed? ==> ReadStopped(m, bytes, pos, n, first, r)
    decreases n
  {
    var a := Align(m.width);
    if n == 0 then
      var r := ReadEffect(m, pos, Done);
      ReadNone(m, bytes, pos, first);
      r
    else if |bytes| - pos < a then
      var r := ReadEffect(m, |bytes|, Failed(IoError(UnexpectedEof)));
      ReadShort(m, bytes, pos, n, first);
      r
    else
      var w := Decode(bytes[pos..pos + a], first);
      var e := Push(m, w, 1);
      if e.status.Failed? then
        var r := ReadEffect(e.mif, pos + a, e.status);
        ReadRejected(m, bytes, pos, n, first);
        r
      else
        var r := Read(e.mif, bytes, pos + a, n - 1, first);
        ReadStep(m, bytes, pos, n, first, e.mif, r);
        r
  }

  lemma ReadNone(m: Mif, bytes: seq<Byte>, pos: nat, first: First)
    requires 1 <= m.width <= MaxWidth && pos <= |bytes|
    ensures ReadPost(m, bytes, pos, 0, first, ReadEffect(m, pos, Done))
  {
    assert DecodeWords(bytes, pos, 0, Align(m.width), first) == [];
  }

  /** Fewer bytes than one word remain: the read fails at once. */
  lemma ReadShort(m: Mif, bytes: seq<Byte>, pos: nat, n: nat, first: First)
    requires 1 <= m.width <= MaxWidth && pos <= |bytes| && n > 0
    requires |bytes| - pos < Align(m.width)
    ensures ReadPost(m, bytes, pos, n, first, ReadEffect(m, |bytes|, Failed(IoError(UnexpectedEof))))
  {
    var a := Align(m.width);
    var r := ReadEffect(m, |bytes|, Failed(IoError(UnexpectedEof)));
    assert DecodeWords(bytes, pos, 0, a, first) == [];
    assert ReadStopped(m, bytes, pos, n, first, r);
  }

  /** The first word does not fit the width: the read fails with it. */
  lemma ReadRejected(m: Mif, bytes: seq<Byte>, pos: nat, n: nat, first: First)
    requires 1 <= m.width <= MaxWidth && n > 0
    requires pos + Align(m.width) <= |bytes|
    requires Push(m, Decode(bytes[pos..pos + Align(m.width)], first), 1).status.Failed?
    ensures var e := Push(m, Decode(bytes[pos..pos + Align(m.width)], first), 1);
      ReadPost(m, bytes, pos, n, first, ReadEffect(e.mif, pos + Align(m.width), e.status))
  {
    var a := Align(m.width);
    var e := Push(m, Decode(bytes[pos..pos + a], first), 1);
    var r := ReadEffect(e.mif, pos + a, e.status);
    assert r.mif == m;
    AllDecodedFitStep(bytes, pos, n, a, first, MaxValue(m));
    assert Expand(r.mif.words) == Expand(m.words) + [];
    assert StoppedAt(bytes, pos, a, first, MaxValue(m), m.width, r);
    ReadStoppedIntro(m, bytes, pos, n, first, r, 0, pos, []);
    ReadFailedPost(m, bytes, pos, n, first, r);
  }

  /** A read that stopped, leaving a valid store valid and failing exactly
      when some word is too wide, meets the promise of `Read`. */
  lemma ReadFailedPost(m: Mif, bytes: seq<Byte>, pos: nat, n: nat, first: First, r: ReadEffect)
    requires 1 <= m.width <= MaxWidth && r.status.Failed?
    requires r.mif.width == m.width && r.mif.areas == m.areas
    requires r.mif.depth >= m.depth && r.pos <= |bytes|
    requires Valid(m) ==> !AllDecodedFit(bytes, pos, n, Align(m.width), first, MaxValue(m)) && Valid(r.mif)
    requires ReadStopped(m, bytes, pos, n, first, r)
    ensures ReadPost(m, bytes, pos, n, first, r)
  {
  }

  /** What `Read(m, bytes, pos, n, first)` promises of its result `r`. */
  ghost predicate ReadPost(m: Mif, bytes: seq<Byte>, pos: nat, n: nat, first: First, r: ReadEffect)
    requires 1 <= m.width <= MaxWidth
  {
    && r.mif.width == m.width && r.mif.areas == m.areas
    && r.mif.depth >= m.depth && r.pos <= |bytes|
    && (Valid(m) ==> (r.status.Done? <==> AllDecodedFit(bytes, pos, n, Align(m.width), first, MaxValue(m))))
    && (r.status.Done? ==>
      && r.pos == pos + Span(n, Align(m.width))
      && pos + Span(n, Align(m.width)) <= |bytes|
      && Expand(r.mif.words) == Expand(m.words) + DecodeWords(bytes, pos, n, Align(m.width), first)
      && r.mif.depth == m.depth + n)
    && (Valid(m) ==> Valid(r.mif))
    && (r.status.Failed? ==> ReadStopped(m, bytes, pos, n, first, r))
  }

  /** A read of `n` words stopped after k = r.mif.depth - m.depth of them:
      those k words are pushed, and the next one was either short of
      bytes or too wide. The count of missing words is never reported. */
  ghost predicate ReadStopped(m: Mif, bytes: seq<Byte>, pos: nat, n: nat, first: First, r: ReadEffect)
    requires 1 <= m.width <= MaxWidth && r.mif.depth >= m.depth
  {
    var k := r.mif.depth - m.depth;
    var a := Align(m.width);
    && k < n
    && pos + Span(k, a) <= |bytes|
    && Expand(r.mif.words) == Expand(m.words) + DecodeWords(bytes, pos, k, a, first)
    && StoppedAt(bytes, pos + Span(k, a), a, first, MaxValue(m), m.width, r)
  }

  /** The word of `align` bytes at `at` stopped a read into a store of the
      given width and largest word: the bytes ran out (the exact read
      fails), or the word was too wide (the push fails). */
  ghost predicate StoppedAt(bytes: seq<Byte>, at: nat, align: nat, first: First, max: nat, width: nat, r: ReadEffect)
    requires align <= MaxAlign && at <= |bytes|
  {
    && r.status.Failed?
    && (r.status.error.IoError? || r.status.error.ValueOutOfWidth?)
    && (r.status.error.IoError? ==> |bytes| < at + align)
    && (r.status.error.ValueOutOfWidth? ==>
      && r.status.error == ValueOutOfWidth(r.mif.depth, width)
      && at + align <= |bytes|
      && Decode(bytes[at..at + align], first) > max)
  }

  /** One step of `Read`: the first word decoded at `pos` and pushed into
      `m` giving `m1`, then the remaining `n - 1` words read into `m1`. */
  lemma ReadStep(m: Mif, bytes: seq<Byte>, pos: nat, n: nat, first: First, m1: Mif, r: ReadEffect)
    requires 1 <= m.width <= MaxWidth && n > 0
    requires pos + Align(m.width) <= |bytes|
    requires var w := Decode(bytes[pos..pos + Align(m.width)], first);
      && ((|m.words| > 0 && m.words[|m.words| - 1].word == w) || w <= MaxValue(m))
      && Expand(m1.words) == Expand(m.words) + Repeat(w, 1)
    requires m1.width == m.width && m1.areas == m.areas && m1.depth == m.depth + 1
    requires Valid(m) ==> Valid(m1)
    requires ReadPost(m1, bytes, pos + Align(m.width), n - 1, first, r)
    ensures ReadPost(m, bytes, pos, n, first, r)
  {
    var a := Align(m.width);
    var w := Decode(bytes[pos..pos + a], first);
    assert Repeat(w, 1) == [w];
    assert MaxValue(m1) == MaxValue(m);
    if Valid(m) {
      assert w <= MaxValue(m) by {
        var k := |m.words|;
        if k > 0 && m.words[k - 1].word == w {
          assert m.words[k - 1].word < Pow(2, m.width);
        }
      }
      AllDecodedFitStep(bytes, pos, n, a, first, MaxValue(m));
    }
    if r.status.Done? {
      ReadStepDone(m, bytes, pos, n, first, m1, r);
    } else {
      ReadStepFailed(m, bytes, pos, n, first, m1, r);
    }
  }

  lemma ReadStepDone(m: Mif, bytes: seq<Byte>, pos: nat, n: nat, first: First, m1: Mif, r: ReadEffect)
    requires 1 <= m.width <= MaxWidth && n > 0
    requires pos + Span(n, Align(m.width)) <= |bytes|
    requires Expand(m1.words) == Expand(m.words) + [Decode(bytes[pos..pos + Align(m.width)], first)]
    requires Expand(r.mif.words)
          == Expand(m1.words) + DecodeWords(bytes, pos + Align(m.width), n - 1, Align(m.width), first)
    ensures Expand(r.mif.words) == Expand(m.words) + DecodeWords(bytes, pos, n, Align(m.width), first)
  {
    var a := Align(m.width);
    DecodeWordsCons(bytes, pos, n, a, first);
    AppendStep(Expand(m.words), [Decode(bytes[pos..pos + a], first)],
      DecodeWords(bytes, pos + a, n - 1, a, first), Expand(m1.words), Expand(r.mif.words));
  }

  lemma ReadStepFailed(m: Mif, bytes: seq<Byte>, pos: nat, n: nat, first: First, m1: Mif, r: ReadEffect)
    requires 1 <= m.width <= MaxWidth && n > 0
    requires pos + Align(m.width) <= |bytes|
    requires Expand(m1.words) == Expand(m.words) + [Decode(bytes[pos..pos + Align(m.width)], first)]
    requires m1.width == m.width && m1.depth == m.depth + 1
    requires r.status.Failed? && r.mif.depth >= m1.depth
    requires ReadStopped(m1, bytes, pos + Align(m.width), n - 1, first, r)
    ensures ReadStopped(m, bytes, pos, n, first, r)
  {
    var a := Align(m.width);
    var next := pos + a;
    var k := r.mif.depth - m1.depth;
    var at := next + Span(k, a);
    assert at == pos + Span(k + 1, a);
    assert MaxValue(m1) == MaxValue(m);
    ReadStoppedElim(m1, bytes, next, n - 1, first, r, a, MaxValue(m), m.width);
    var ws := DecodeWords(bytes, pos, k + 1, a, first);
    StepWords(bytes, pos, k, a, first, Expand(m.words), Expand(m1.words), Expand(r.mif.words), ws);
    ReadStoppedIntro(m, bytes, pos, n, first, r, k + 1, at, ws);
  }

  /** The parts of `ReadStopped`, stated with the store's alignment,
      largest word and width given by name. */
  lemma ReadStoppedElim(m: Mif, bytes: seq<Byte>, pos: nat, n: nat, first: First, r: ReadEffect,
                        a: nat, max: nat, width: nat)
    requires 1 <= m.width <= MaxWidth && r.mif.depth >= m.depth
    requires a == Align(m.width) && max == MaxValue(m) && width == m.width
    requires ReadStopped(m, bytes, pos, n, first, r)
    ensures a <= MaxAlign && pos + Span(r.mif.depth - m.depth, a) <= |bytes|
    ensures r.mif.depth - m.depth < n
    ensures Expand(r.mif.words) == Expand(m.words) + DecodeWords(bytes, pos, r.mif.depth - m.depth, a, first)
    ensures StoppedAt(bytes, pos + Span(r.mif.depth - m.depth, a), a, first, max, width, r)
  {
    AlignBounds(m.width);
  }

  /** The parts of `ReadStopped`, established one by one. */
  lemma ReadStoppedIntro(m: Mif, bytes: seq<Byte>, pos: nat, n: nat, first: First, r: ReadEffect, k: nat,
                         at: nat, ws: seq<U128>)
    requires 1 <= m.width <= MaxWidth && r.mif.depth == m.depth + k && k < n
    requires at == pos + Span(k, Align(m.width)) && at <= |bytes|
    requires ws == DecodeWords(bytes, pos, k, Align(m.width), first)
    requires Expand(r.mif.words) == Expand(m.words) + ws
    requires StoppedAt(bytes, at, Align(m.width), first, MaxValue(m), m.width, r)
    ensures ReadStopped(m, bytes, pos, n, first, r)
  {
  }

  /** The first of n > 0 decoded words, followed by the n - 1 after it. */
  lemma DecodeWordsCons(bytes: seq<Byte>, pos: nat, n: nat, a: nat, first: First)
    requires a <= MaxAlign && n > 0 && pos + Span(n, a) <= |bytes|
    ensures pos + a <= |bytes| && pos + a + Span(n - 1, a) <= |bytes|
    ensures DecodeWords(bytes, pos, n, a, first)
         == [Decode(bytes[pos..pos + a], first)] + DecodeWords(bytes, pos + a, n - 1, a, first)
  {
  }

  /** The words before a read, plus its first word, plus the `k` words
      after it, are the words before it plus its first `k + 1` words. */
  lemma StepWords(bytes: seq<Byte>, pos: nat, k: nat, a: nat, first: First,
                  before: seq<U128>, mid: seq<U128>, after: seq<U128>, ws: seq<U128>)
    requires a <= MaxAlign && pos + Span(k + 1, a) <= |bytes|
    requires mid == before + [Decode(bytes[pos..pos + a], first)]
    requires after == mid + DecodeWords(bytes, pos + a, k, a, first)
    requires ws == DecodeWords(bytes, pos, k + 1, a, first)
    ensures after == before + ws
  {
    DecodeWordsCons(bytes, pos, k + 1, a, first);
    AppendStepTo(before, [Decode(bytes[pos..pos + a], first)], DecodeWords(bytes, pos + a, k, a, first), mid, after, ws);
  }

  /** `AppendStep`, with the concatenation given by name. */
  lemma AppendStepTo<T>(before: seq<T>, x: seq<T>, rest: seq<T>, mid: seq<T>, after: seq<T>, both: seq<T>)
    requires mid == before + x && after == mid + rest && both == x + rest
    ensures after == before + both
  {
  }

  /** Appending in two steps is appending the concatenation. */
  lemma AppendStep<T>(before: seq<T>, x: seq<T>, rest: seq<T>, mid: seq<T>, after: seq<T>)
    requires mid == before + x && after == mid + rest
    ensures after == before + (x + rest)
  {
  }
}
