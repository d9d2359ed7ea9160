/**
  Replacing parts of a text at given sites.

  The meaning of a replacement is a weaving: the text outside the sites is cut into gaps, and
  the gaps are woven with the replacement texts. `normalizeModule` splices in place from the last
  site to the first; the import rewriters accumulate from the first site to the last.
 */
module Splice {
  import opened Basics
  import opened Sorting

  datatype Patch<T> = Patch(start: nat, end: nat, text: seq<T>)

  /** Sites lie in `lo..hi`, in ascending order, without overlap. */
  ghost predicate Ascending<T>(ps: seq<Patch<T>>, lo: nat, hi: nat) {
    ps != [] ==>
      && lo <= ps[0].start <= ps[0].end <= hi
      && (|ps| > 1 ==> ps[0].start < ps[1].start)
      && Ascending(ps[1..], ps[0].end, hi)
  }

  /** `code` from `last` on, with all sites replaced. */
  ghost function ReplaceFrom<T>(code: seq<T>, ps: seq<Patch<T>>, last: nat): seq<T>
    requires last <= |code| && Ascending(ps, last, |code|)
  {
    if ps == [] then code[last..]
    else code[last..ps[0].start] + ps[0].text + ReplaceFrom(code, ps[1..], ps[0].end)
  }

  /** All sites replaced at once. */
  ghost function Replace<T>(code: seq<T>, ps: seq<Patch<T>>): seq<T>
    requires Ascending(ps, 0, |code|)
  {
    ReplaceFrom(code, ps, 0)
  }

  // ---------------------------------------------------------------------------
  // Gaps and weaving
  // ---------------------------------------------------------------------------

  /** The text between the sites, from `last` on. */
  ghost function Gaps<T>(code: seq<T>, ps: seq<Patch<T>>, last: nat): (gs: seq<seq<T>>)
    requires last <= |code| && Ascending(ps, last, |code|)
    ensures |gs| == |ps| + 1
  {
    if ps == [] then [code[last..]]
    else [code[last..ps[0].start]] + Gaps(code, ps[1..], ps[0].end)
  }

  /** gap, text, gap, text, ..., gap */
  ghost function Weave<T>(gs: seq<seq<T>>, texts: seq<seq<T>>): seq<T>
    requires |gs| == |texts| + 1
  {
    if texts == [] then gs[0] else gs[0] + texts[0] + Weave(gs[1..], texts[1..])
  }

  ghost function Texts<T>(ps: seq<Patch<T>>): (ts: seq<seq<T>>)
    ensures |ts| == |ps|
  {
    if ps == [] then [] else [ps[0].text] + Texts(ps[1..])
  }

  /** What the sites held before. */
  ghost function Originals<T>(code: seq<T>, ps: seq<Patch<T>>, last: nat): (ts: seq<seq<T>>)
    requires last <= |code| && Ascending(ps, last, |code|)
    ensures |ts| == |ps|
  {
    if ps == [] then []
    else [code[ps[0].start..ps[0].end]] + Originals(code, ps[1..], ps[0].end)
  }

  lemma {:induction false} WovenTexts<T>(code: seq<T>, ps: seq<Patch<T>>, last: nat)
    requires last <= |code| && Ascending(ps, last, |code|)
    ensures ReplaceFrom(code, ps, last) == Weave(Gaps(code, ps, last), Texts(ps))
  {
    if ps != [] {
      WovenTexts(code, ps[1..], ps[0].end);
      assert Texts(ps)[1..] == Texts(ps[1..]);
      assert Gaps(code, ps, last)[1..] == Gaps(code, ps[1..], ps[0].end);
    }
  }

  lemma OriginalsCons<T>(code: seq<T>, ps: seq<Patch<T>>, last: nat)
    requires last <= |code| && Ascending(ps, last, |code|) && ps != []
    ensures var p := ps[0];
            && last <= p.start <= p.end <= |code| && Ascending(ps[1..], p.end, |code|)
            && Weave(Gaps(code, ps, last), Originals(code, ps, last))
            == code[last..p.start] + code[p.start..p.end]
             + Weave(Gaps(code, ps[1..], p.end), Originals(code, ps[1..], p.end))
  {
    assert Originals(code, ps, last)[1..] == Originals(code, ps[1..], ps[0].end);
    assert Gaps(code, ps, last)[1..] == Gaps(code, ps[1..], ps[0].end);
  }

  lemma ThreeCuts<T>(code: seq<T>, a: nat, b: nat, c: nat)
    requires a <= b <= c <= |code|
    ensures code[a..] == code[a..b] + code[b..c] + code[c..]
  {
  }

  lemma {:induction false} WovenOriginals<T>(code: seq<T>, ps: seq<Patch<T>>, last: nat)
    requires last <= |code| && Ascending(ps, last, |code|)
    ensures code[last..] == Weave(Gaps(code, ps, last), Originals(code, ps, last))
  {
    if ps != [] {
      hide Ascending, Weave, Gaps, Originals;
      OriginalsCons(code, ps, last);
      WovenOriginals(code, ps[1..], ps[0].end);
      ThreeCuts(code, last, ps[0].start, ps[0].end);
    }
  }

  /**
    Exactly the sites change: the same gaps that, woven with the sites' old contents, give the
    input, give the result when woven with the replacements.
   */
  lemma ReplaceKeepsGaps<T>(code: seq<T>, ps: seq<Patch<T>>)
    requires Ascending(ps, 0, |code|)
    ensures Replace(code, ps) == Weave(Gaps(code, ps, 0), Texts(ps))
    ensures code == Weave(Gaps(code, ps, 0), Originals(code, ps, 0))
  {
    WovenTexts(code, ps, 0);
    WovenOriginals(code, ps, 0);
    assert code[0..] == code;
  }

  /** The sites of `names` in `Weave(gs, names)` that are to carry another text. */
  ghost function SitesIn<T>(gs: seq<seq<T>>, names: seq<seq<T>>, ts: seq<Option<seq<T>>>, from: nat): (ps: seq<Patch<T>>)
    requires |gs| == |names| + 1 && |ts| == |names|
    ensures ps != [] ==> ps[0].start >= from
  {
    if names == [] then []
    else
      var start := from + |gs[0]|;
      var end := start + |names[0]|;
      (match ts[0] case None => [] case Some(t) => [Patch(start, end, t)]) + SitesIn(gs[1..], names[1..], ts[1..], end)
  }

  /** What the sites hold afterwards. */
  ghost function Filled<T>(names: seq<seq<T>>, ts: seq<Option<seq<T>>>): (r: seq<seq<T>>)
    requires |ts| == |names|
    ensures |r| == |names|
    ensures forall i | 0 <= i < |names| :: r[i] == if ts[i].Some? then ts[i].value else names[i]
  {
    if names == [] then [] else [if ts[0].Some? then ts[0].value else names[0]] + Filled(names[1..], ts[1..])
  }

  lemma Cut<T>(code: seq<T>, from: nat, a: seq<T>, b: seq<T>, c: seq<T>)
    requires from <= |code| && code[from..] == a + b + c
    ensures from + |a| + |b| <= |code|
    ensures code[from..from + |a|] == a && code[from + |a|..from + |a| + |b|] == b
    ensures code[from + |a| + |b|..] == c
  {
    assert code[from..from + |a|] == code[from..][..|a|];
    assert code[from + |a|..from + |a| + |b|] == code[from..][|a|..|a| + |b|];
    assert code[from + |a| + |b|..] == code[from..][|a| + |b|..];
  }

  lemma ReplaceFromCons<T>(code: seq<T>, p: Patch<T>, rest: seq<Patch<T>>, last: nat)
    requires last <= p.start <= p.end <= |code| && Ascending(rest, p.end, |code|)
    requires rest != [] ==> p.start < rest[0].start
    ensures Ascending([p] + rest, last, |code|)
    ensures ReplaceFrom(code, [p] + rest, last)
         == code[last..p.start] + p.text + ReplaceFrom(code, rest, p.end)
  {
    assert ([p] + rest)[1..] == rest;
  }

  lemma CutSpan<T>(code: seq<T>, last: nat, from: nat, a: seq<T>, b: seq<T>, c: seq<T>)
    requires last <= from <= |code| && code[from..] == a + b + c
    ensures from + |a| + |b| <= |code|
    ensures code[last..from + |a|] == code[last..from] + a
    ensures code[last..from + |a| + |b|] == code[last..from] + a + b
  {
    Cut(code, from, a, b, c);
    assert code[from..from + |a| + |b|] == code[from..][..|a| + |b|] == a + b;
    assert code[last..from + |a| + |b|] == code[last..from] + code[from..from + |a| + |b|];
    assert code[last..from + |a|] == code[last..from] + code[from..from + |a|];
  }

  lemma WovenCons<T>(gs: seq<seq<T>>, names: seq<seq<T>>, ts: seq<Option<seq<T>>>)
    requires |gs| == |names| + 1 && |ts| == |names| && names != []
    ensures Weave(gs, names) == gs[0] + names[0] + Weave(gs[1..], names[1..])
    ensures Weave(gs, Filled(names, ts))
         == gs[0] + (if ts[0].Some? then ts[0].value else names[0]) + Weave(gs[1..], Filled(names[1..], ts[1..]))
  {
    assert Filled(names, ts)[1..] == Filled(names[1..], ts[1..]);
  }

  lemma SitesCons<T>(gs: seq<seq<T>>, names: seq<seq<T>>, ts: seq<Option<seq<T>>>, from: nat)
    requires |gs| == |names| + 1 && |ts| == |names| && names != []
    ensures var start := from + |gs[0]|;
            var end := start + |names[0]|;
            var rest := SitesIn(gs[1..], names[1..], ts[1..], end);
            SitesIn(gs, names, ts, from) == if ts[0].None? then rest else [Patch(start, end, ts[0].value)] + rest
  {
    var rest := SitesIn(gs[1..], names[1..], ts[1..], from + |gs[0]| + |names[0]|);
    assert [] + rest == rest;
  }

  lemma Stays<T>(r: seq<T>, head: seq<T>, span: seq<T>, gap: seq<T>, name: seq<T>, tail: seq<T>)
    requires span == head + gap + name && r == span + tail
    ensures r == head + (gap + name + tail)
  {
  }

  lemma IsReplaced<T>(r: seq<T>, head: seq<T>, span: seq<T>, gap: seq<T>, text: seq<T>, none: seq<T>, tail: seq<T>)
    requires span == head + gap && none == [] && r == span + text + (none + tail)
    ensures r == head + (gap + text + tail)
  {
    assert none + tail == tail;
  }

  /** A site that stays lengthens the copied part. */
  lemma SkipSite<T>(
    code: seq<T>, ps: seq<Patch<T>>, last: nat, from: nat, gap: seq<T>, name: seq<T>, rest: seq<T>, tail: seq<T>)
    requires last <= from <= |code| && code[from..] == gap + name + rest && Ascending(ps, last, |code|)
    requires from + |gap| + |name| <= |code| && ReplaceFrom(code, ps, last) == code[last..from + |gap| + |name|] + tail
    ensures ReplaceFrom(code, ps, last) == code[last..from] + (gap + name + tail)
  {
    hide Ascending, ReplaceFrom;
    CutSpan(code, last, from, gap, name, rest);
    Stays(ReplaceFrom(code, ps, last), code[last..from], code[last..from + |gap| + |name|], gap, name, tail);
  }

  lemma PutSite<T>(
    code: seq<T>, ps: seq<Patch<T>>, last: nat, from: nat, gap: seq<T>, name: seq<T>, rest: seq<T>, text: seq<T>, tail: seq<T>)
    requires last <= from <= |code| && code[from..] == gap + name + rest && name != []
    requires var end := from + |gap| + |name|;
             end <= |code| && Ascending(ps, end, |code|) && (ps != [] ==> end <= ps[0].start)
             && ReplaceFrom(code, ps, end) == code[end..end] + tail
    ensures var qs := [Patch(from + |gap|, from + |gap| + |name|, text)] + ps;
            Ascending(qs, last, |code|) && ReplaceFrom(code, qs, last) == code[last..from] + (gap + text + tail)
  {
    hide Ascending, ReplaceFrom;
    var start := from + |gap|;
    var end := start + |name|;
    CutSpan(code, last, from, gap, name, rest);
    ReplaceFromCons(code, Patch(start, end, text), ps, last);
    IsReplaced(
      ReplaceFrom(code, [Patch(start, end, text)] + ps, last),
      code[last..from], code[last..start], gap, text, code[end..end], tail);
  }

  lemma WovenNone<T>(code: seq<T>, gs: seq<seq<T>>, names: seq<seq<T>>, ts: seq<Option<seq<T>>>, last: nat, from: nat)
    requires names == [] && |gs| == 1 && ts == [] && last <= from <= |code| && code[from..] == Weave(gs, names)
    ensures SitesIn(gs, names, ts, from) == [] && Ascending(SitesIn(gs, names, ts, from), last, |code|)
    ensures ReplaceFrom(code, [], last) == code[last..from] + Weave(gs, Filled(names, ts))
  {
    assert code[last..] == code[last..from] + code[from..];
  }

  lemma {:induction false} ReplaceWoven<T>(
    code: seq<T>, gs: seq<seq<T>>, names: seq<seq<T>>, ts: seq<Option<seq<T>>>, last: nat, from: nat)
    requires |gs| == |names| + 1 && |ts| == |names|
    requires forall i | 0 <= i < |names| && ts[i].Some? :: names[i] != []
    requires last <= from <= |code| && code[from..] == Weave(gs, names)
    ensures Ascending(SitesIn(gs, names, ts, from), last, |code|)
    ensures ReplaceFrom(code, SitesIn(gs, names, ts, from), last) == code[last..from] + Weave(gs, Filled(names, ts))
  {
    hide Ascending, ReplaceFrom, Weave, Filled, SitesIn;
    if names == [] {
      WovenNone(code, gs, names, ts, last, from);
    } else {
      var end := from + |gs[0]| + |names[0]|;
      var rest, tail := Weave(gs[1..], names[1..]), Weave(gs[1..], Filled(names[1..], ts[1..]));
      var ps := SitesIn(gs[1..], names[1..], ts[1..], end);
      WovenCons(gs, names, ts);
      SitesCons(gs, names, ts, from);
      Cut(code, from, gs[0], names[0], rest);
      if ts[0].None? {
        ReplaceWoven(code, gs[1..], names[1..], ts[1..], last, end);
        SkipSite(code, ps, last, from, gs[0], names[0], rest, tail);
      } else {
        ReplaceWoven(code, gs[1..], names[1..], ts[1..], end, end);
        PutSite(code, ps, last, from, gs[0], names[0], rest, ts[0].value, tail);
      }
    }
  }

  lemma WovenWhole<T>(code: seq<T>, gs: seq<seq<T>>, names: seq<seq<T>>, ts: seq<Option<seq<T>>>)
    requires |gs| == |names| + 1 && |ts| == |names| && code == Weave(gs, names)
    requires forall i | 0 <= i < |names| && ts[i].Some? :: names[i] != []
    ensures Ascending(SitesIn(gs, names, ts, 0), 0, |code|)
    ensures Replace(code, SitesIn(gs, names, ts, 0)) == Weave(gs, Filled(names, ts))
  {
    hide Ascending, ReplaceFrom, Weave, Filled, SitesIn;
    assert code[0..] == code && code[0..0] == [];
    ReplaceWoven(code, gs, names, ts, 0, 0);
  }

  lemma FilledSame<T>(names: seq<seq<T>>, names': seq<seq<T>>, ts: seq<Option<seq<T>>>)
    requires |names'| == |names| == |ts| && forall i | 0 <= i < |names| && ts[i].None? :: names'[i] == names[i]
    ensures Filled(names', ts) == Filled(names, ts)
  {
    hide Filled;
  }

  /**
    Replacement forgets what the sites held: two texts that agree but for what is replaced give the
    same result, however long the replaced parts are.
   */
  lemma ReplaceForgets<T>(gs: seq<seq<T>>, names: seq<seq<T>>, names': seq<seq<T>>, ts: seq<Option<seq<T>>>)
    requires |gs| == |names| + 1 && |names'| == |names| == |ts|
    requires forall i | 0 <= i < |names| :: if ts[i].None? then names'[i] == names[i] else names[i] != [] && names'[i] != []
    ensures var code, code' := Weave(gs, names), Weave(gs, names');
            var ps, ps' := SitesIn(gs, names, ts, 0), SitesIn(gs, names', ts, 0);
            && Ascending(ps, 0, |code|) && Ascending(ps', 0, |code'|)
            && Replace(code, ps) == Replace(code', ps') == Weave(gs, Filled(names, ts))
  {
    hide Ascending, ReplaceFrom, Weave, Filled, SitesIn;
    WovenWhole(Weave(gs, names), gs, names, ts);
    WovenWhole(Weave(gs, names'), gs, names', ts);
    FilledSame(names, names', ts);
  }

  // ---------------------------------------------------------------------------
  // Back to front
  // ---------------------------------------------------------------------------

  /** A replacement copies what lies before its first site. */
  lemma ReplaceHead<T>(code: seq<T>, ps: seq<Patch<T>>, last: nat, to: nat)
    requires last <= to <= |code| && Ascending(ps, to, |code|)
    ensures Ascending(ps, last, |code|)
    ensures ReplaceFrom(code, ps, last) == code[last..to] + ReplaceFrom(code, ps, to)
  {
    if ps == [] {
      assert code[last..] == code[last..to] + code[to..];
    } else {
      assert code[last..ps[0].start] == code[last..to] + code[to..ps[0].start];
      IsReplaced(ReplaceFrom(code, ps, last), code[last..to], code[last..ps[0].start], code[to..ps[0].start],
        ps[0].text, [], ReplaceFrom(code, ps[1..], ps[0].end));
    }
  }

  lemma Around<T>(r: seq<T>, head: seq<T>, tail: seq<T>)
    requires r == head + tail
    ensures r[..|head|] == head && r[|head|..] == tail
  {
  }

  /** Splicing one more patch in front of those already applied. */
  lemma SpliceStep<T>(code: seq<T>, ps: seq<Patch<T>>, result: seq<T>, lo: nat)
    requires ps != [] && Ascending(ps, lo, |code|)
    ensures Ascending(ps, 0, |code|) && Ascending(ps[1..], 0, |code|)
    ensures result == Replace(code, ps[1..]) ==>
              && ps[0].start <= ps[0].end <= |result|
              && Replace(code, ps) == result[..ps[0].start] + ps[0].text + result[ps[0].end..]
  {
    var p := ps[0];
    ReplaceHead(code, ps[1..], 0, p.end);
    if result == Replace(code, ps[1..]) {
      hide Ascending, ReplaceFrom;
      Around(result, code[0..p.end], ReplaceFrom(code, ps[1..], p.end));
      assert result[..p.start] == code[0..p.end][..p.start] == code[0..p.start];
      SpliceFirst(code, ps);
    }
  }

  lemma SpliceFirst<T>(code: seq<T>, ps: seq<Patch<T>>)
    requires ps != [] && Ascending(ps, 0, |code|)
    ensures var p := ps[0];
            && p.start <= p.end <= |code| && Ascending(ps[1..], p.end, |code|)
            && Replace(code, ps) == code[0..p.start] + p.text + ReplaceFrom(code, ps[1..], p.end)
  {
  }

  predicate LaterFirst<T>(p: Patch<T>, q: Patch<T>) { p.start >= q.start }

  function Reverse<T>(xs: seq<T>): (ys: seq<T>)
    ensures |ys| == |xs| && forall i | 0 <= i < |xs| :: ys[i] == xs[|xs| - 1 - i]
  {
    if xs == [] then [] else Reverse(xs[1..]) + [xs[0]]
  }

  lemma {:induction false} ReversePermutes<T>(xs: seq<T>)
    ensures multiset(Reverse(xs)) == multiset(xs)
  {
    if xs != [] {
      ReversePermutes(xs[1..]);
      assert xs == [xs[0]] + xs[1..];
    }
  }

  lemma {:induction false} AscendingAt<T>(ps: seq<Patch<T>>, lo: nat, hi: nat, j: nat)
    requires Ascending(ps, lo, hi) && j < |ps|
    ensures 0 < j ==> ps[0].start < ps[j].start
    ensures exists lo': nat :: lo <= lo' && Ascending(ps[j..], lo', hi)
  {
    if j == 0 {
      assert ps[0..] == ps;
    } else {
      AscendingAt(ps[1..], ps[0].end, hi, j - 1);
      assert ps[1..][j - 1..] == ps[j..];
    }
  }

  lemma AscendingPair<T>(ps: seq<Patch<T>>, lo: nat, hi: nat, i: nat, j: nat)
    requires Ascending(ps, lo, hi) && i < j < |ps|
    ensures ps[i].start < ps[j].start
  {
    AscendingAt(ps, lo, hi, i);
    var lo': nat :| Ascending(ps[i..], lo', hi);
    AscendingAt(ps[i..], lo', hi, j - i);
  }

  /** Sorting ascending sites by descending start reverses them. */
  lemma SortReverses<T(!new)>(ps: seq<Patch<T>>, hi: nat)
    requires Ascending(ps, 0, hi)
    ensures Sort(LaterFirst, ps) == Reverse(ps)
  {
    var le: (Patch<T>, Patch<T>) -> bool := LaterFirst;
    SortSorts(le, ps);
    SortPermutes(le, ps);
    ReversePermutes(ps);
    forall i, j | 0 <= i < j < |ps| ensures ps[i].start < ps[j].start {
      AscendingPair(ps, 0, hi, i, j);
    }
    assert SortedBy(le, Reverse(ps));
    forall x, y | x in ps && y in ps && Tied(le, x, y) ensures x == y {
      var i :| 0 <= i < |ps| && ps[i] == x;
      var j :| 0 <= j < |ps| && ps[j] == y;
      assert i == j;
    }
    TiesEqualPermutes(le, ps, Reverse(ps));
    SortedPermutationsEqual(le, Reverse(ps), Sort(le, ps));
  }

  /** The loop of `normalizeModule`: patches sorted by descending start, spliced in place. */
  method SpliceBackToFront<T(!new)>(code: seq<T>, patches: seq<Patch<T>>) returns (result: seq<T>)
    requires Ascending(patches, 0, |code|)
    ensures result == Replace(code, patches)
  {
    hide Sort, Ascending;
    var order := Sort(LaterFirst, patches);
    SortReverses(patches, |code|);
    result := code;
    ghost var n := |patches|;
    ReplaceNone(code, patches[n..]);
    for i := 0 to |order|
      invariant Ascending(patches[n - i..], 0, |code|)
      invariant result == Replace(code, patches[n - i..])
    {
      var p := order[i];
      ghost var k := n - i - 1;
      AscendingAt(patches, 0, |code|, k);
      ghost var lo: nat :| Ascending(patches[k..], lo, |code|);
      assert patches[k..][1..] == patches[k + 1..];
      SpliceStep(code, patches[k..], result, lo);
      result := result[..p.start] + p.text + result[p.end..];
    }
    assert patches[0..] == patches;
  }

  lemma ReplaceNone<T>(code: seq<T>, ps: seq<Patch<T>>)
    requires ps == []
    ensures Ascending(ps, 0, |code|) && Replace(code, ps) == code
  {
    assert code[0..] == code;
  }

  // ---------------------------------------------------------------------------
  // Front to back
  // ---------------------------------------------------------------------------

  /** What an accumulating splice has written is a prefix of the result; `rest` is still to do. */
  ghost predicate Accumulated<T>(code: seq<T>, all: seq<Patch<T>>, rest: seq<Patch<T>>, out: seq<T>, last: nat) {
    && Ascending(all, 0, |code|)
    && last <= |code| && Ascending(rest, last, |code|)
    && Replace(code, all) == out + ReplaceFrom(code, rest, last)
  }

  lemma AccumulateStart<T>(code: seq<T>, ps: seq<Patch<T>>)
    requires Ascending(ps, 0, |code|)
    ensures Accumulated(code, ps, ps, [], 0)
  {
  }

  lemma AccumulateStep<T>(code: seq<T>, all: seq<Patch<T>>, rest: seq<Patch<T>>, out: seq<T>, last: nat)
    requires Accumulated(code, all, rest, out, last) && rest != []
    ensures last <= rest[0].start <= rest[0].end <= |code|
    ensures Accumulated(code, all, rest[1..], out + (code[last..rest[0].start] + rest[0].text), rest[0].end)
  {
    var p := rest[0];
    var tail := ReplaceFrom(code, rest[1..], p.end);
    assert out + (code[last..p.start] + p.text + tail) == out + (code[last..p.start] + p.text) + tail;
  }

  lemma AccumulateEnd<T>(code: seq<T>, all: seq<Patch<T>>, out: seq<T>, last: nat)
    requires Accumulated(code, all, [], out, last)
    ensures out + code[last..] == Replace(code, all)
  {
  }
}
