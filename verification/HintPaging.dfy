/** Step 3 of `convert_v1_to_v2`: copying the hints table page by page. */
module HintPaging {
  import opened Bytes

  datatype Hint = Hint(coinId: Blob, hint: Blob)

  /** The v1 table hints: id is its integer primary key. */
  type HintTable = map<int, Hint>

  ghost function Eligible(ids: set<int>, start: int): set<int> {
    set id | id in ids && start <= id
  }

  ghost predicate Bounded(ids: set<int>, end: int) {
    forall id :: id in ids ==> id < end
  }

  function Min(a: nat, b: nat): nat {
    if a < b then a else b
  }

  // ------------------------------------------------------------ pages in order of id

  lemma {:induction false} Smallest(s: set<int>) returns (m: int)
    requires s != {}
    ensures m in s && forall x :: x in s ==> m <= x
    decreases |s|
  {
    m := Member(s);
    var rest := s - {m};
    assert forall x :: x in s ==> x == m || x in rest;
    if rest != {} {
      var m' := Smallest(rest);
      if m' < m {
        m := m';
      }
    }
  }

  /** SELECT id FROM hints WHERE id >= start LIMIT limit, read in order of the primary key. */
  method SelectPage(ids: set<int>, start: int, limit: nat) returns (page: set<int>)
    ensures page <= Eligible(ids, start)
    ensures |page| == Min(limit, |Eligible(ids, start)|)
    ensures forall x, y :: x in page && y in Eligible(ids, start) - page ==> x < y
  {
    page := {};
    var rest := set id | id in ids && start <= id;
    while |page| < limit && rest != {}
      invariant page !! rest && page + rest == Eligible(ids, start)
      invariant |page| <= limit
      invariant forall x, y :: x in page && y in rest ==> x < y
      decreases rest
    {
      ghost var m := Smallest(rest);
      var next :| next in rest && forall x :: x in rest ==> next <= x;
      page := page + {next};
      rest := rest - {next};
    }
    assert Eligible(ids, start) - page == rest;
    assert |page + rest| == |page| + |rest|;
  }

  /** A page of the smallest ids holds every id in the window of `limit` numbers that it starts. */
  lemma PageCoversWindow(ids: set<int>, start: int, limit: nat, page: set<int>)
    requires page <= Eligible(ids, start)
    requires |page| == Min(limit, |Eligible(ids, start)|)
    requires forall x, y :: x in page && y in Eligible(ids, start) - page ==> x < y
    ensures Eligible(ids, start) <= page + Eligible(ids, start + limit)
  {
    forall y | y in Eligible(ids, start) && y !in page
      ensures start + limit <= y
    {
      assert y in Eligible(ids, start) - page;
      ProperSubsetSmaller(page, Eligible(ids, start));
      forall x | x in page
        ensures start <= x < y
      {
        assert x in Eligible(ids, start);
      }
      WindowSize(page, start, y);
    }
  }

  lemma ProperSubsetSmaller(a: set<int>, b: set<int>)
    requires a < b
    ensures |a| < |b|
  {
    var d := b - a;
    assert b == a + d;
    assert |b| == |a| + |d|;
    assert d != {};
  }

  lemma {:induction false} WindowSize(s: set<int>, lo: int, hi: int)
    requires forall x :: x in s ==> lo <= x < hi
    ensures lo <= hi ==> |s| <= hi - lo
    decreases hi - lo
  {
    if lo < hi {
      WindowSize(s - {hi - 1}, lo, hi - 1);
    } else {
      assert forall x :: x !in s;
      assert s == {};
    }
  }

  /** The paging loop. Every hint with an id of at least 1 is copied, however sparse the ids. */
  method ConvertHints(hints: HintTable, parameterLimit: nat) returns (out: set<Hint>)
    requires 1 <= parameterLimit
    ensures out == set id | id in hints && 1 <= id :: hints[id]
  {
    out := {};
    var rangeStart := 1;
    ghost var end := UpperBound(hints.Keys);
    ghost var copied: set<int> := {};
    while true
      invariant copied <= hints.Keys
      invariant copied <= Eligible(hints.Keys, 1) <= copied + Eligible(hints.Keys, rangeStart)
      invariant 1 <= rangeStart && out == HintsOf(hints, copied)
      decreases end - rangeStart
    {
      var rows := SelectPage(hints.Keys, rangeStart, parameterLimit);
      PageCoversWindow(hints.Keys, rangeStart, parameterLimit, rows);
      if |rows| == 0 {
        break;
      }
      assert rangeStart < end by { var first :| first in rows; }
      out := out + set id | id in rows :: hints[id];
      copied := copied + rows;
      rangeStart := rangeStart + parameterLimit;
    }
    assert |Eligible(hints.Keys, rangeStart)| == 0;
    assert copied == Eligible(hints.Keys, 1);
  }

  ghost function HintsOf(hints: HintTable, ids: set<int>): set<Hint>
    requires ids <= hints.Keys
  {
    set id | id in ids :: hints[id]
  }

  lemma {:induction false} BoundExists(ids: set<int>) returns (end: int)
    ensures Bounded(ids, end)
    decreases |ids|
  {
    if ids == {} {
      end := 0;
    } else {
      var id := Member(ids);
      var rest := ids - {id};
      assert forall x :: x in ids ==> x == id || x in rest;
      end := BoundExists(rest);
      if end <= id {
        end := id + 1;
      }
    }
  }

  ghost function UpperBound(ids: set<int>): (end: int)
    ensures Bounded(ids, end)
  {
    assert exists e :: Bounded(ids, e) by { var e := BoundExists(ids); }
    var e :| Bounded(ids, e);
    e
  }

  // ------------------------------------------------------------ pages in no particular order

  /** What SQL promises without ORDER BY: some `limit` of the eligible ids, or all if there are fewer. */
  ghost predicate IsPaging(ids: set<int>, limit: nat, page: int -> set<int>) {
    forall start :: page(start) <= Eligible(ids, start) && |page(start)| == Min(limit, |Eligible(ids, start)|)
  }

  /** The ids the loop copies from `start` on, when queries answer with `page`. */
  ghost function Copied(ids: set<int>, limit: nat, page: int -> set<int>, start: int, end: int): set<int>
    requires 1 <= limit && IsPaging(ids, limit, page) && Bounded(ids, end)
    decreases end - start
  {
    if page(start) == {} then {}
    else
      assert start < end by { var id :| id in page(start); }
      page(start) + Copied(ids, limit, page, start + limit, end)
  }

  /** The loop copies every hint whatever order the query uses exactly when they fit in one page. */
  lemma UnorderedPaging(ids: set<int>, limit: nat, end: int)
    requires 1 <= limit && Bounded(ids, end)
    ensures (forall page | IsPaging(ids, limit, page) :: Copied(ids, limit, page, 1, end) == Eligible(ids, 1))
            <==> |Eligible(ids, 1)| <= limit
  {
    if |Eligible(ids, 1)| <= limit {
      forall page | IsPaging(ids, limit, page)
        ensures Copied(ids, limit, page, 1, end) == Eligible(ids, 1)
      {
        SubsetSameSize(page(1), Eligible(ids, 1));
        CopiedEligible(ids, limit, page, 1, end);
      }
    } else {
      var least := Smallest(Eligible(ids, 1));
      var page := Largest(ids, limit);
      LargestNeverPicks(ids, limit, page, least, 1, end);
    }
  }

  lemma SubsetSameSize(a: set<int>, b: set<int>)
    requires a <= b && |a| == |b|
    ensures a == b
  {
    if a != b {
      ProperSubsetSmaller(a, b);
    }
  }

  lemma {:induction false} CopiedEligible(ids: set<int>, limit: nat, page: int -> set<int>, start: int, end: int)
    requires 1 <= limit && IsPaging(ids, limit, page) && Bounded(ids, end)
    ensures page(start) <= Copied(ids, limit, page, start, end) <= Eligible(ids, start)
    decreases end - start
  {
    if page(start) != {} {
      var id :| id in page(start);
      assert start < end;
      CopiedEligible(ids, limit, page, start + limit, end);
    }
  }

  /** A paging that answers with the largest eligible ids. */
  lemma Largest(ids: set<int>, limit: nat) returns (page: int -> set<int>)
    ensures IsPaging(ids, limit, page)
    ensures forall start, x, y :: x in page(start) && y in Eligible(ids, start) - page(start) ==> y < x
  {
    forall start
      ensures exists s :: IsTop(Eligible(ids, start), limit, s)
    {
      var s := TopExists(Eligible(ids, start), limit);
    }
    page := start => var s :| IsTop(Eligible(ids, start), limit, s); s;
  }

  ghost predicate IsTop(all: set<int>, limit: nat, s: set<int>) {
    && s <= all
    && |s| == Min(limit, |all|)
    && forall x, y :: x in s && y in all - s ==> y < x
  }

  lemma {:induction false} TopExists(all: set<int>, limit: nat) returns (s: set<int>)
    ensures IsTop(all, limit, s)
    decreases |all|
  {
    if |all| <= limit {
      s := all;
    } else {
      var least := Smallest(all);
      s := TopExists(all - {least}, limit);
      forall x, y | x in s && y in all - s
        ensures y < x
      {
        assert y == least || y in (all - {least}) - s;
      }
    }
  }

  /** A part that is smaller leaves something over. */
  lemma LeftOver(part: set<int>, whole: set<int>) returns (y: int)
    requires part <= whole && |part| < |whole|
    ensures y in whole - part
  {
    assert whole == part + (whole - part);
    assert whole - part != {};
    y := Member(whole - part);
  }

  lemma {:induction false} LargestNeverPicks(ids: set<int>, limit: nat, page: int -> set<int>, least: int, start: int,
                                             end: int)
    requires 1 <= limit && IsPaging(ids, limit, page) && Bounded(ids, end)
    requires forall s, x, y :: x in page(s) && y in Eligible(ids, s) - page(s) ==> y < x
    requires least in ids && (forall x :: x in Eligible(ids, 1) ==> least <= x)
    requires 1 <= start && |Eligible(ids, 1)| > limit
    ensures least !in Copied(ids, limit, page, start, end)
    decreases end - start
  {
    if page(start) != {} {
      var id :| id in page(start);
      assert start < end;
      LargestNeverPicks(ids, limit, page, least, start + limit, end);
      if start <= least {
        assert Eligible(ids, start) == Eligible(ids, 1);
        var y := LeftOver(page(start), Eligible(ids, start));
        assert least in page(start) ==> y < least;
      }
    }
  }
}
