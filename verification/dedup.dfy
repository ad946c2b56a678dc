/** The duplicate filter inside `WeChatQRCode::Impl::decode`
    (`core/src/wechat_qrcode/src/wechat_qrcode.cpp`). After one successful
    decode attempt the decoder has appended its texts to the running result
    list and returned one corner list per text; each corner list is compared
    with the lists admitted so far in this attempt, admitted lists are kept as
    output points, and a duplicate's text is erased from the result list.

    Two versions are modelled: `Attempt`, the code as written, and
    `AttemptPaired`, the behaviour the comments and the paired output evidently
    intend. */
module Dedup {
  import opened Common

  /** Per-coordinate tolerance (`eps`). */
  const Eps: real := 10.0

  predicate Close(a: Point, b: Point) {
    AbsReal(a.x - b.x) < Eps && AbsReal(a.y - b.y) < Eps
  }

  /** Every corner of `prev` from index j on is close to the same corner of `cur`. */
  predicate AllCloseFrom(prev: Quad, cur: Quad, j: nat)
    requires |prev| <= |cur|
  {
    forall k :: j <= k < |prev| ==> Close(prev[k], cur[k])
  }

  // ---------------------------------------------------------------------
  // The verdict as written

  /** The inner corner loop for one admitted list `prev`, entered with the
      running verdict `v`: each close corner sets the verdict to true, the
      first far corner sets it to false and leaves the loop. Reading a corner
      of `cur` past its end is undefined in the source: `None`. */
  function CornerVerdict(prev: Quad, cur: Quad, j: nat, v: bool): (r: Option<bool>)
    ensures |prev| <= |cur| ==>
      r == Some(if j >= |prev| then v else AllCloseFrom(prev, cur, j))
    decreases |prev| - j
  {
    if j >= |prev| then Some(v)
    else if j >= |cur| then None
    else if Close(prev[j], cur[j]) then CornerVerdict(prev, cur, j + 1, true)
    else Some(false)
  }

  /** The outer loop over every admitted list, starting from verdict `v`;
      each list's inner loop overwrites the verdict. */
  function Verdict(check: seq<Quad>, cur: Quad, v: bool): Option<bool>
  {
    if check == [] then Some(v)
    else
      match CornerVerdict(check[0], cur, 0, v)
      case None => None
      case Some(v') => Verdict(check[1..], cur, v')
  }

  /** The verdict as written is decided by the LAST admitted list alone. */
  lemma {:induction false} VerdictIsLastList(check: seq<Quad>, cur: Quad, v: bool)
    requires forall k :: 0 <= k < |check| ==> 1 <= |check[k]| <= |cur|
    ensures Verdict(check, cur, v) ==
      Some(if check == [] then v else AllCloseFrom(check[|check| - 1], cur, 0))
  {
    if check != [] {
      VerdictIsLastList(check[1..], cur, AllCloseFrom(check[0], cur, 0));
    }
  }

  // ---------------------------------------------------------------------
  // One decode attempt as written

  /** `decode_results`, the output `points`, and this attempt's `check_points`. */
  datatype State = State(results: seq<ByteString>, points: seq<Quad>, check: seq<Quad>)

  /** The loop over the decoder's corner lists from index i on. A duplicate
      erases `decode_results[i]`; erasing past the end is undefined in the
      source: `None`, as is an undefined verdict. */
  function AttemptFrom(st: State, sets: seq<Quad>, i: nat): (r: Option<State>)
    ensures r.Some? ==> |r.value.points| - |st.points| == |r.value.check| - |st.check|
    ensures r.Some? ==> i <= |sets| ==>
      (|st.results| - |r.value.results|) + (|r.value.points| - |st.points|) == |sets| - i
    decreases |sets| - i
  {
    if i >= |sets| then Some(st)
    else
      match Verdict(st.check, sets[i], false)
      case None => None
      case Some(dup) =>
        if !dup then
          AttemptFrom(st.(points := st.points + [sets[i]], check := st.check + [sets[i]]), sets, i + 1)
        else if i < |st.results| then
          AttemptFrom(st.(results := st.results[..i] + st.results[i + 1..]), sets, i + 1)
        else
          None
  }

  /** One successful attempt as written: the decoder's `texts` are already on
      the result list, `check_points` starts empty. */
  function Attempt(results: seq<ByteString>, points: seq<Quad>, texts: seq<ByteString>, sets: seq<Quad>): Option<(seq<ByteString>, seq<Quad>)>
  {
    match AttemptFrom(State(results + texts, points, []), sets, 0)
    case None => None
    case Some(st) => Some((st.results, st.points))
  }

  // ---------------------------------------------------------------------
  // The evident intent

  /** A corner list duplicates an admitted list when every corner of that
      admitted list is close. */
  predicate DuplicateOf(prev: Quad, cur: Quad) {
    |prev| >= 1 && |prev| <= |cur| && AllCloseFrom(prev, cur, 0)
  }

  /** Corrected verdict: duplicate of ANY admitted list. */
  function DuplicateOfAny(check: seq<Quad>, cur: Quad): (r: bool)
    ensures r <==> exists k :: 0 <= k < |check| && DuplicateOf(check[k], cur)
  {
    if check == [] then false
    else
      assert forall k :: 1 <= k < |check| ==> check[k] == check[1..][k - 1];
      DuplicateOf(check[0], cur) || DuplicateOfAny(check[1..], cur)
  }

  /** The admission decisions of the corrected filter, list by list. */
  function Admitted(check: seq<Quad>, sets: seq<Quad>): (keep: seq<bool>)
    ensures |keep| == |sets|
    decreases |sets|
  {
    if sets == [] then []
    else
      var dup := DuplicateOfAny(check, sets[0]);
      [!dup] + Admitted(if dup then check else check + [sets[0]], sets[1..])
  }

  function Select<T>(xs: seq<T>, keep: seq<bool>): (ys: seq<T>)
    requires |xs| == |keep|
    ensures |ys| <= |xs|
  {
    if xs == [] then [] else (if keep[0] then [xs[0]] else []) + Select(xs[1..], keep[1..])
  }

  /** Corrected loop: a duplicate erases the text that belongs to it, which
      sits right after the texts already kept. */
  function AttemptPairedFrom(st: State, sets: seq<Quad>): (r: State)
    ensures |st.results| >= |st.points| + |sets| ==>
      |r.results| - |r.points| == |st.results| - |st.points| - |sets|
    decreases |sets|
  {
    if sets == [] then st
    else if DuplicateOfAny(st.check, sets[0]) then
      var k := |st.points|;
      var results := if k < |st.results| then st.results[..k] + st.results[k + 1..] else st.results;
      AttemptPairedFrom(st.(results := results), sets[1..])
    else
      AttemptPairedFrom(st.(points := st.points + [sets[0]], check := st.check + [sets[0]]), sets[1..])
  }

  /** One successful attempt, corrected. */
  function AttemptPaired(results: seq<ByteString>, points: seq<Quad>, texts: seq<ByteString>, sets: seq<Quad>): (r: (seq<ByteString>, seq<Quad>))
    ensures |results| == |points| && |texts| == |sets| ==> |r.0| == |r.1|
  {
    var st := AttemptPairedFrom(State(results + texts, points, []), sets);
    (st.results, st.points)
  }

  lemma AdmittedUnfold(check: seq<Quad>, sets: seq<Quad>)
    requires sets != []
    ensures var dup := DuplicateOfAny(check, sets[0]);
            var keep := Admitted(check, sets);
            keep[0] == !dup && keep[1..] == Admitted(if dup then check else check + [sets[0]], sets[1..])
  {
  }

  lemma PairedDropStep(r: seq<ByteString>, p: seq<Quad>, check: seq<Quad>, texts: seq<ByteString>, sets: seq<Quad>)
    requires |r| == |p| && |texts| == |sets| && sets != []
    requires DuplicateOfAny(check, sets[0])
    ensures AttemptPairedFrom(State(r + texts, p, check), sets) ==
            AttemptPairedFrom(State(r + texts[1..], p, check), sets[1..])
  {
    assert (r + texts)[..|p|] + (r + texts)[|p| + 1..] == r + texts[1..];
  }

  lemma PairedKeepStep(r: seq<ByteString>, p: seq<Quad>, check: seq<Quad>, texts: seq<ByteString>, sets: seq<Quad>)
    requires |r| == |p| && |texts| == |sets| && sets != []
    requires !DuplicateOfAny(check, sets[0])
    ensures AttemptPairedFrom(State(r + texts, p, check), sets) ==
            AttemptPairedFrom(State((r + [texts[0]]) + texts[1..], p + [sets[0]], check + [sets[0]]), sets[1..])
  {
    assert r + texts == (r + [texts[0]]) + texts[1..];
  }

  ghost predicate SelectsFrom(r: seq<ByteString>, p: seq<Quad>, check: seq<Quad>, texts: seq<ByteString>, sets: seq<Quad>)
    requires |r| == |p| && |texts| == |sets|
  {
    var keep := Admitted(check, sets);
    AttemptPairedFrom(State(r + texts, p, check), sets) ==
      State(r + Select(texts, keep), p + Select(sets, keep), check + Select(sets, keep))
  }

  lemma {:induction false} AttemptPairedFromSelects(r: seq<ByteString>, p: seq<Quad>, check: seq<Quad>,
                                                    texts: seq<ByteString>, sets: seq<Quad>)
    requires |r| == |p| && |texts| == |sets|
    ensures SelectsFrom(r, p, check, texts, sets)
    decreases |sets|, 1
  {
    if sets == [] {
      assert Select(texts, Admitted(check, sets)) == [] && Select(sets, Admitted(check, sets)) == [];
    } else if DuplicateOfAny(check, sets[0]) {
      SelectsAfterDrop(r, p, check, texts, sets);
    } else {
      SelectsAfterKeep(r, p, check, texts, sets);
    }
  }

  lemma {:induction false} SelectsAfterDrop(r: seq<ByteString>, p: seq<Quad>, check: seq<Quad>,
                                            texts: seq<ByteString>, sets: seq<Quad>)
    requires |r| == |p| && |texts| == |sets| && sets != []
    requires DuplicateOfAny(check, sets[0])
    ensures SelectsFrom(r, p, check, texts, sets)
    decreases |sets|, 0
  {
    var keep := Admitted(check, sets);
    AdmittedUnfold(check, sets);
    PairedDropStep(r, p, check, texts, sets);
    AttemptPairedFromSelects(r, p, check, texts[1..], sets[1..]);
    assert Select(texts, keep) == Select(texts[1..], keep[1..]);
    assert Select(sets, keep) == Select(sets[1..], keep[1..]);
  }

  lemma {:induction false} SelectsAfterKeep(r: seq<ByteString>, p: seq<Quad>, check: seq<Quad>,
                                            texts: seq<ByteString>, sets: seq<Quad>)
    requires |r| == |p| && |texts| == |sets| && sets != []
    requires !DuplicateOfAny(check, sets[0])
    ensures SelectsFrom(r, p, check, texts, sets)
    decreases |sets|, 0
  {
    var keep := Admitted(check, sets);
    var r1, p1, c1 := r + [texts[0]], p + [sets[0]], check + [sets[0]];
    var k1 := Admitted(c1, sets[1..]);
    var st1 := State(r1 + texts[1..], p1, c1);
    assert AttemptPairedFrom(State(r + texts, p, check), sets) == AttemptPairedFrom(st1, sets[1..]) by {
      PairedKeepStep(r, p, check, texts, sets);
    }
    assert AttemptPairedFrom(st1, sets[1..]) ==
      State(r1 + Select(texts[1..], k1), p1 + Select(sets[1..], k1), c1 + Select(sets[1..], k1)) by {
      AttemptPairedFromSelects(r1, p1, c1, texts[1..], sets[1..]);
    }
    assert keep[0] && keep[1..] == k1 by {
      AdmittedUnfold(check, sets);
    }
    SelectKeptHead(texts, keep);
    SelectKeptHead(sets, keep);
    AppendHead(r, texts[0], Select(texts[1..], k1));
    AppendHead(p, sets[0], Select(sets[1..], k1));
    AppendHead(check, sets[0], Select(sets[1..], k1));
  }

  lemma SelectKeptHead<T>(xs: seq<T>, keep: seq<bool>)
    requires |xs| == |keep| && xs != [] && keep[0]
    ensures Select(xs, keep) == [xs[0]] + Select(xs[1..], keep[1..])
  {
  }

  lemma AppendHead<T>(a: seq<T>, x: T, b: seq<T>)
    ensures (a + [x]) + b == a + ([x] + b)
  {
  }

  /** The corrected filter keeps text and corner list together: the same
      decisions select from the texts and from the corner lists, so the
      result lists stay index-aligned. */
  lemma AttemptPairedKeepsPairs(results: seq<ByteString>, points: seq<Quad>, texts: seq<ByteString>, sets: seq<Quad>)
    requires |results| == |points| && |texts| == |sets|
    ensures var keep := Admitted([], sets);
            AttemptPaired(results, points, texts, sets) ==
              (results + Select(texts, keep), points + Select(sets, keep))
  {
    AttemptPairedFromSelects(results, points, [], texts, sets);
    assert SelectsFrom(results, points, [], texts, sets);
  }

  /** No list in `check` duplicates an earlier one. */
  ghost predicate NoDuplicates(check: seq<Quad>) {
    forall i, j :: 0 <= i < j < |check| ==> !DuplicateOf(check[i], check[j])
  }

  /** The corrected filter never admits a duplicate of an admitted list. */
  lemma {:induction false} AttemptPairedAdmitsNoDuplicates(st: State, sets: seq<Quad>)
    requires NoDuplicates(st.check)
    ensures NoDuplicates(AttemptPairedFrom(st, sets).check)
    decreases |sets|
  {
    if sets != [] {
      if DuplicateOfAny(st.check, sets[0]) {
        var k := |st.points|;
        var results := if k < |st.results| then st.results[..k] + st.results[k + 1..] else st.results;
        AttemptPairedAdmitsNoDuplicates(st.(results := results), sets[1..]);
      } else {
        var check' := st.check + [sets[0]];
        forall i, j | 0 <= i < j < |check'|
          ensures !DuplicateOf(check'[i], check'[j])
        {
          if j == |st.check| {
            assert check'[j] == sets[0];
          }
        }
        AttemptPairedAdmitsNoDuplicates(st.(points := st.points + [sets[0]], check := check'), sets[1..]);
      }
    }
  }

  // ---------------------------------------------------------------------
  // Counterexamples to the code as written

  const P1: Quad := [Point(0.0, 0.0)]
  const P2: Quad := [Point(100.0, 100.0)]
  const Q: Quad := [Point(1.0, 1.0)]
  /** The texts "a", "b", "c", "x" and "b2" as bytes. */
  const TextA: ByteString := [97]
  const TextB: ByteString := [98]
  const TextC: ByteString := [99]
  const TextX: ByteString := [120]
  const TextB2: ByteString := [98, 50]

  /** Finding: `Q` duplicates the first admitted list `P1`, but an unrelated
      list `P2` was admitted after it, so the verdict as written is false and
      `Q` is kept a second time. */
  lemma DuplicateOfEarlierListSlipsThrough()
    ensures Attempt([], [], [TextA, TextB, TextC], [P1, P2, Q]) == Some(([TextA, TextB, TextC], [P1, P2, Q]))
  {
    var sets := [P1, P2, Q];
    var r := [TextA, TextB, TextC];
    assert [] + r == r;
    VerdictIsLastList([], P1, false);
    VerdictIsLastList([P1], P2, false);
    VerdictIsLastList([P1, P2], Q, false);
    assert !AllCloseFrom(P2, Q, 0);
    assert [] + [P1] == [P1] && [P1] + [P2] == [P1, P2] && [P1, P2] + [Q] == [P1, P2, Q];
    assert AttemptFrom(State(r, [P1, P2, Q], [P1, P2, Q]), sets, 3) == Some(State(r, [P1, P2, Q], [P1, P2, Q]));
    assert AttemptFrom(State(r, [P1, P2], [P1, P2]), sets, 2) == Some(State(r, [P1, P2, Q], [P1, P2, Q]));
    assert AttemptFrom(State(r, [P1], [P1]), sets, 1) == Some(State(r, [P1, P2, Q], [P1, P2, Q]));
  }

  /** The corrected filter drops `Q` together with its text. */
  lemma CorrectedDropsEarlierDuplicate()
    ensures AttemptPaired([], [], [TextA, TextB, TextC], [P1, P2, Q]) == ([TextA, TextB], [P1, P2])
  {
    var sets := [P1, P2, Q];
    var r := [TextA, TextB, TextC];
    assert !Close(P1[0], P2[0]) && !DuplicateOf(P1, P2);
    assert !DuplicateOfAny([P1], P2);
    assert DuplicateOf([P1, P2][0], Q);
    assert DuplicateOfAny([P1, P2], Q);
    assert sets[1..] == [P2, Q] && sets[1..][1..] == [Q] && sets[1..][1..][1..] == [];
    assert r[1..] == [TextB, TextC] && r[1..][1..] == [TextC] && r[1..][1..][1..] == [];
    var keep := [true, true, false];
    assert keep[1..] == [true, false] && keep[1..][1..] == [false] && keep[1..][1..][1..] == [];
    assert [] + [P1] == [P1] && [P1] + [P2] == [P1, P2];
    assert Admitted([P1, P2], [Q]) == [false];
    assert Admitted([P1], [P2, Q]) == [true, false];
    assert Admitted([], sets) == keep;
    assert Select(sets[1..][1..], keep[1..][1..]) == [];
    assert Select(sets[1..], keep[1..]) == [P2];
    assert Select(sets, keep) == [P1, P2];
    assert Select(r[1..][1..], keep[1..][1..]) == [];
    assert Select(r[1..], keep[1..]) == [TextB];
    assert Select(r, keep) == [TextA, TextB];
    AttemptPairedKeepsPairs([], [], r, sets);
    assert [] + [TextA, TextB] == [TextA, TextB] && [] + [P1, P2] == [P1, P2];
  }

  /** Finding: a second candidate region decodes the same code twice. The
      duplicate erases `decode_results[1]`, which is the FIRST region's text
      "x", so that region's points end up paired with "b". */
  lemma DuplicateErasesEarlierText()
    ensures Attempt([TextA, TextX], [P1, P2], [TextB, TextB2], [Q, Q]) == Some(([TextA, TextB, TextB2], [P1, P2, Q]))
  {
    var sets := [Q, Q];
    var r := [TextA, TextX, TextB, TextB2];
    assert [TextA, TextX] + [TextB, TextB2] == r;
    VerdictIsLastList([], Q, false);
    VerdictIsLastList([Q], Q, false);
    assert AllCloseFrom(Q, Q, 0);
    assert [] + [Q] == [Q] && [P1, P2] + [Q] == [P1, P2, Q];
    assert r[..1] + r[2..] == [TextA, TextB, TextB2];
    assert AttemptFrom(State([TextA, TextB, TextB2], [P1, P2, Q], [Q]), sets, 2) == Some(State([TextA, TextB, TextB2], [P1, P2, Q], [Q]));
    assert AttemptFrom(State(r, [P1, P2, Q], [Q]), sets, 1) == Some(State([TextA, TextB, TextB2], [P1, P2, Q], [Q]));
  }

  /** The corrected filter erases the duplicate's own text "b2". */
  lemma CorrectedErasesOwnText()
    ensures AttemptPaired([TextA, TextX], [P1, P2], [TextB, TextB2], [Q, Q]) == ([TextA, TextX, TextB], [P1, P2, Q])
  {
    var sets := [Q, Q];
    var texts := [TextB, TextB2];
    assert DuplicateOf([Q][0], Q);
    assert DuplicateOfAny([Q], Q);
    assert sets[1..] == [Q] && sets[1..][1..] == [];
    assert texts[1..] == [TextB2] && texts[1..][1..] == [];
    var keep := [true, false];
    assert keep[1..] == [false] && keep[1..][1..] == [];
    assert [] + [Q] == [Q];
    assert Admitted([Q], [Q]) == [false];
    assert Admitted([], sets) == keep;
    assert Select(texts[1..], keep[1..]) == [];
    assert Select(texts, keep) == [TextB];
    assert Select(sets[1..], keep[1..]) == [];
    assert Select(sets, keep) == [Q];
    AttemptPairedKeepsPairs([TextA, TextX], [P1, P2], texts, sets);
    assert [TextA, TextX] + [TextB] == [TextA, TextX, TextB] && [P1, P2] + [Q] == [P1, P2, Q];
  }

  /** Finding, same cause: three copies of one code in a single attempt
      erase index 1 and then index 2 of a two-element list, past its end. */
  lemma RepeatedDuplicateErasesPastTheEnd()
    ensures Attempt([], [], [TextA, TextB, TextC], [Q, Q, Q]).None?
  {
    var sets := [Q, Q, Q];
    var r := [TextA, TextB, TextC];
    assert [] + r == r;
    VerdictIsLastList([], Q, false);
    VerdictIsLastList([Q], Q, false);
    assert AllCloseFrom(Q, Q, 0);
    assert [] + [Q] == [Q];
    assert r[..1] + r[2..] == [TextA, TextC];
    assert AttemptFrom(State([TextA, TextC], [Q], [Q]), sets, 2).None?;
    assert AttemptFrom(State(r, [Q], [Q]), sets, 1).None?;
  }

  /** The corrected filter keeps the first copy with its text. */
  lemma CorrectedKeepsFirstCopy()
    ensures AttemptPaired([], [], [TextA, TextB, TextC], [Q, Q, Q]) == ([TextA], [Q])
  {
    var sets := [Q, Q, Q];
    var r := [TextA, TextB, TextC];
    assert DuplicateOf([Q][0], Q);
    assert DuplicateOfAny([Q], Q);
    assert sets[1..] == [Q, Q] && sets[1..][1..] == [Q] && sets[1..][1..][1..] == [];
    assert r[1..] == [TextB, TextC] && r[1..][1..] == [TextC] && r[1..][1..][1..] == [];
    var keep := [true, false, false];
    assert keep[1..] == [false, false] && keep[1..][1..] == [false] && keep[1..][1..][1..] == [];
    assert [] + [Q] == [Q];
    assert Admitted([Q], [Q]) == [false];
    assert Admitted([Q], [Q, Q]) == [false, false];
    assert Admitted([], sets) == keep;
    assert Select(sets[1..][1..], keep[1..][1..]) == [];
    assert Select(sets[1..], keep[1..]) == [];
    assert Select(sets, keep) == [Q];
    assert Select(r[1..][1..], keep[1..][1..]) == [];
    assert Select(r[1..], keep[1..]) == [];
    assert Select(r, keep) == [TextA];
    AttemptPairedKeepsPairs([], [], r, sets);
    assert [] + [TextA] == [TextA] && [] + [Q] == [Q];
  }
}
