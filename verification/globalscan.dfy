/** What a regular expression with the `g` flag does when `exec` is called on
    it again and again: each call searches from `lastIndex` for the leftmost
    offset where the expression matches and moves `lastIndex` to the end of
    that hit. Nothing here depends on the expression itself, only on how it
    behaves at a single offset, so the expression is a parameter. */
module GlobalScan {
  import opened Options
  import opened Pattern

  /** The expression tried at one offset only (a sticky match). */
  type Matcher = (string, nat) -> Option<Hit>

  /** A hit at offset `i` starts at `i` and ends after it, inside the text.
      (The colour expression never matches the empty string.) */
  ghost predicate Sticky(m: Matcher) {
    forall text: string, i: nat :: m(text, i).Some? ==>
      m(text, i).value.start == i && i < m(text, i).value.end <= |text|
  }

  /** `RegExp.prototype.exec` with `lastIndex` set to `from`: the hit at the
      first offset at or after `from` where the expression matches. */
  function Exec(m: Matcher, text: string, from: nat): (r: Option<Hit>)
    requires Sticky(m)
    ensures r.Some? ==> from <= r.value.start && m(text, r.value.start) == r
    ensures r.Some? ==> r.value.start < r.value.end <= |text|
    decreases |text| - from
  {
    if from >= |text| then None
    else if m(text, from).Some? then m(text, from)
    else Exec(m, text, from + 1)
  }

  /** `exec` passes over no offset where the expression matches: none
      before the hit it returns, and none at all when it fails. */
  lemma {:induction false} ExecLeftmost(m: Matcher, text: string, from: nat)
    requires Sticky(m)
    ensures Exec(m, text, from).Some? ==>
              forall p :: from <= p < Exec(m, text, from).value.start ==> m(text, p).None?
    ensures Exec(m, text, from).None? ==> forall p :: from <= p < |text| ==> m(text, p).None?
    decreases |text| - from
  {
    if from < |text| && m(text, from).None? {
      ExecLeftmost(m, text, from + 1);
    }
  }

  /** `exec` stops at the first offset where the expression matches. */
  lemma {:induction false} ExecAt(m: Matcher, text: string, from: nat, q: nat)
    requires Sticky(m)
    requires from <= q && m(text, q).Some?
    requires forall p :: from <= p < q ==> m(text, p).None?
    ensures Exec(m, text, from) == m(text, q)
    decreases q - from
  {
    if from < q {
      ExecAt(m, text, from + 1, q);
    }
  }

  /** `exec` fails when the expression matches nowhere from `from` on. */
  lemma {:induction false} ExecNone(m: Matcher, text: string, from: nat)
    requires Sticky(m)
    requires forall p :: from <= p < |text| ==> m(text, p).None?
    ensures Exec(m, text, from) == None
    decreases |text| - from
  {
    if from < |text| {
      ExecNone(m, text, from + 1);
    }
  }

  /** Offset `p` lies inside one of the hits. */
  predicate Covered(hits: seq<Hit>, p: nat) {
    exists k :: 0 <= k < |hits| && hits[k].start <= p < hits[k].end
  }

  /** Every element is a hit of the expression at its own start, at or after
      `from` and inside the text. */
  predicate AllHits(m: Matcher, text: string, from: nat, hits: seq<Hit>) {
    forall k :: 0 <= k < |hits| ==>
      from <= hits[k].start < hits[k].end <= |text| && m(text, hits[k].start) == Some(hits[k])
  }

  /** Hits in ascending order, none overlapping the next. */
  predicate Ordered(hits: seq<Hit>) {
    forall k, l :: 0 <= k < l < |hits| ==> hits[k].end <= hits[l].start
  }

  /** No offset from `from` on that lies outside every hit is one where the
      expression matches. */
  predicate NoneSkipped(m: Matcher, text: string, from: nat, hits: seq<Hit>) {
    forall p :: from <= p < |text| && !Covered(hits, p) ==> m(text, p).None?
  }

  /** What a left-to-right global scan from `from` must produce: hits of the
      expression, in ascending order and not overlapping, inside the text,
      and no offset outside every hit where the expression would match. */
  predicate IsLeftmostScan(m: Matcher, text: string, from: nat, hits: seq<Hit>) {
    AllHits(m, text, from, hits) && Ordered(hits) && NoneSkipped(m, text, from, hits)
  }

  /** The hits of repeated `exec` calls from `from` until one fails; the next
      search resumes where the previous hit ended. */
  function Scan(m: Matcher, text: string, from: nat): (hits: seq<Hit>)
    requires Sticky(m)
    decreases |text| - from
  {
    match Exec(m, text, from)
    case None => []
    case Some(h) => [h] + Scan(m, text, h.end)
  }

  /** A scan that does not fail at once is its first hit followed by the
      scan from where that hit ends. */
  lemma ScanUnfold(m: Matcher, text: string, from: nat, h: Hit)
    requires Sticky(m) && Exec(m, text, from) == Some(h)
    ensures Scan(m, text, from) == [h] + Scan(m, text, h.end)
  {
  }

  /** Offsets covered by the first hit or by the later ones are covered by
      the whole sequence, and conversely. */
  lemma CoveredCons(h: Hit, rest: seq<Hit>, p: nat)
    ensures Covered([h] + rest, p) <==> (h.start <= p < h.end || Covered(rest, p))
  {
    var hits := [h] + rest;
    if h.start <= p < h.end {
      assert hits[0] == h;
    }
    if Covered(rest, p) {
      var k :| 0 <= k < |rest| && rest[k].start <= p < rest[k].end;
      assert hits[k + 1] == rest[k];
    }
    if Covered(hits, p) {
      var k :| 0 <= k < |hits| && hits[k].start <= p < hits[k].end;
      if k > 0 {
        assert hits[k] == rest[k - 1];
      }
    }
  }

  lemma AllHitsCons(m: Matcher, text: string, from: nat, h: Hit, rest: seq<Hit>)
    requires from <= h.start < h.end <= |text| && m(text, h.start) == Some(h)
    requires AllHits(m, text, h.end, rest)
    ensures AllHits(m, text, from, [h] + rest)
  {
    var hits := [h] + rest;
    forall k | 0 <= k < |hits|
      ensures from <= hits[k].start < hits[k].end <= |text| && m(text, hits[k].start) == Some(hits[k])
    {
      if k > 0 {
        assert hits[k] == rest[k - 1];
      }
    }
  }

  lemma OrderedCons(h: Hit, rest: seq<Hit>)
    requires forall k :: 0 <= k < |rest| ==> h.end <= rest[k].start
    requires Ordered(rest)
    ensures Ordered([h] + rest)
  {
    var hits := [h] + rest;
    forall k, l | 0 <= k < l < |hits|
      ensures hits[k].end <= hits[l].start
    {
      assert hits[l] == rest[l - 1];
      if k > 0 {
        assert hits[k] == rest[k - 1];
      }
    }
  }

  lemma NoneSkippedCons(m: Matcher, text: string, from: nat, h: Hit, rest: seq<Hit>)
    requires forall p :: from <= p < h.start ==> m(text, p).None?
    requires NoneSkipped(m, text, h.end, rest)
    ensures NoneSkipped(m, text, from, [h] + rest)
  {
    forall p | from <= p < |text| && !Covered([h] + rest, p)
      ensures m(text, p).None?
    {
      CoveredCons(h, rest, p);
    }
  }

  /** Prepending the hit `exec` returns to a leftmost scan from where that
      hit ends gives a leftmost scan from `from`. */
  lemma ScanStep(m: Matcher, text: string, from: nat, h: Hit, rest: seq<Hit>)
    requires Sticky(m) && Exec(m, text, from) == Some(h)
    requires IsLeftmostScan(m, text, h.end, rest)
    ensures IsLeftmostScan(m, text, from, [h] + rest)
  {
    ExecLeftmost(m, text, from);
    AllHitsCons(m, text, from, h, rest);
    OrderedCons(h, rest);
    NoneSkippedCons(m, text, from, h, rest);
  }

  /** The scan is a leftmost scan. */
  lemma {:induction false} ScanLeftmost(m: Matcher, text: string, from: nat)
    requires Sticky(m)
    ensures IsLeftmostScan(m, text, from, Scan(m, text, from))
    decreases |text| - from
  {
    match Exec(m, text, from)
    case None =>
      ExecLeftmost(m, text, from);
    case Some(h) =>
      ScanLeftmost(m, text, h.end);
      ScanStep(m, text, from, h, Scan(m, text, h.end));
  }

  /** Offsets before the first of a sequence of ordered hits are covered by
      none of them. */
  lemma NotCoveredBefore(m: Matcher, text: string, from: nat, hits: seq<Hit>, p: nat)
    requires AllHits(m, text, from, hits) && Ordered(hits) && |hits| > 0 && p < hits[0].start
    ensures !Covered(hits, p)
  {
    forall k | 0 <= k < |hits|
      ensures !(hits[k].start <= p < hits[k].end)
    {
      if k > 0 {
        assert hits[0].end <= hits[k].start;
      }
    }
  }

  /** The first element of a leftmost scan is what `exec` returns. */
  lemma LeftmostHead(m: Matcher, text: string, from: nat, hits: seq<Hit>)
    requires Sticky(m) && IsLeftmostScan(m, text, from, hits) && |hits| > 0
    ensures Exec(m, text, from) == Some(hits[0])
  {
    forall p | from <= p < hits[0].start
      ensures m(text, p).None?
    {
      NotCoveredBefore(m, text, from, hits, p);
    }
    ExecAt(m, text, from, hits[0].start);
  }

  /** The rest of a leftmost scan is a leftmost scan from where its first
      hit ends. */
  lemma LeftmostTail(m: Matcher, text: string, from: nat, hits: seq<Hit>)
    requires IsLeftmostScan(m, text, from, hits) && |hits| > 0
    ensures IsLeftmostScan(m, text, hits[0].end, hits[1..])
  {
    var rest := hits[1..];
    assert hits == [hits[0]] + rest;
    forall k | 0 <= k < |rest|
      ensures hits[0].end <= rest[k].start
    {
      assert rest[k] == hits[k + 1];
    }
    forall p | hits[0].end <= p < |text| && !Covered(rest, p)
      ensures m(text, p).None?
    {
      CoveredCons(hits[0], rest, p);
    }
  }

  /** With no hits, a leftmost scan finds nothing. */
  lemma EmptyScan(m: Matcher, text: string, from: nat)
    requires Sticky(m) && NoneSkipped(m, text, from, [])
    ensures Scan(m, text, from) == []
  {
    forall p | from <= p < |text|
      ensures m(text, p).None?
    {
      assert !Covered([], p);
    }
    ExecNone(m, text, from);
  }

  /** `Scan` is the only sequence that `IsLeftmostScan` admits. */
  lemma {:induction false} ScanUnique(m: Matcher, text: string, from: nat, hits: seq<Hit>)
    requires Sticky(m) && IsLeftmostScan(m, text, from, hits)
    ensures hits == Scan(m, text, from)
    decreases |text| - from
  {
    if |hits| == 0 {
      EmptyScan(m, text, from);
    } else {
      var h := hits[0];
      LeftmostHead(m, text, from, hits);
      LeftmostTail(m, text, from, hits);
      ScanUnique(m, text, h.end, hits[1..]);
      ScanUnfold(m, text, from, h);
      assert hits == [h] + hits[1..];
    }
  }

  /** `exec` called in a `while` loop until it fails, collecting the hits.
      The failing call resets `lastIndex` to 0, so the next loop over the
      same expression starts from the beginning of its text again. */
  method FindAll(m: Matcher, text: string, lastIndex: nat) returns (hits: seq<Hit>, lastIndexAfter: nat)
    requires Sticky(m)
    ensures IsLeftmostScan(m, text, lastIndex, hits)
    ensures hits == Scan(m, text, lastIndex)
    ensures lastIndexAfter == 0
  {
    hits := [];
    var from := lastIndex;
    while true
      invariant hits + Scan(m, text, from) == Scan(m, text, lastIndex)
      decreases |text| - from
    {
      var r := Exec(m, text, from);
      if r.None? {
        break;
      }
      var rest := Scan(m, text, r.value.end);
      ScanUnfold(m, text, from, r.value);
      assert (hits + [r.value]) + rest == hits + ([r.value] + rest);
      hits := hits + [r.value];
      from := r.value.end;
    }
    assert hits == hits + Scan(m, text, from);
    ScanLeftmost(m, text, lastIndex);
    lastIndexAfter := 0;
  }
}
