/** Chronological ordering of messages: Python's stable `sorted` keyed on
    `int(date_unixtime)`. */
module Chronology {
  import opened Messages
  import Seqs

  /** Send times never decrease along `ms`. */
  predicate SortedByTime(ms: seq<Message>)
    requires AllTimestamped(ms)
  {
    forall i, j :: 0 <= i < j < |ms| ==> Timestamp(ms[i]) <= Timestamp(ms[j])
  }

  /** Selects the messages sent at second `t`. */
  function AtTime(t: nat): Message -> bool {
    m => HasTimestamp(m) && Timestamp(m) == t
  }

  /** Inserts `x` in front of the first message of `s` that is not older than it. */
  function InsertByTime(x: Message, s: seq<Message>): (r: seq<Message>)
    requires HasTimestamp(x) && AllTimestamped(s)
    ensures |r| == |s| + 1
    ensures multiset(r) == multiset(s) + multiset{x}
    ensures forall y <- r :: y == x || y in s
    ensures AllTimestamped(r)
  {
    if s == [] || Timestamp(x) <= Timestamp(s[0]) then [x] + s
    else
      assert s == [s[0]] + s[1..];
      [s[0]] + InsertByTime(x, s[1..])
  }

  /** Every message of a chronological sequence is at least as recent as its first. */
  lemma HeadIsOldest(s: seq<Message>)
    requires AllTimestamped(s) && SortedByTime(s) && s != []
    ensures forall y <- s :: Timestamp(s[0]) <= Timestamp(y)
  {
  }

  /** Prepending a message no more recent than any of a chronological
      sequence keeps it chronological. */
  lemma PrependKeepsOrder(x: Message, s: seq<Message>)
    requires HasTimestamp(x) && AllTimestamped(s) && SortedByTime(s)
    requires forall y <- s :: Timestamp(x) <= Timestamp(y)
    ensures AllTimestamped([x] + s) && SortedByTime([x] + s)
  {
    var r := [x] + s;
    forall i, j | 0 <= i < j < |r| ensures Timestamp(r[i]) <= Timestamp(r[j]) {
      assert r[j] == s[j - 1];
      if i > 0 {
        assert r[i] == s[i - 1];
      }
    }
  }

  /** Inserting into a chronological sequence keeps it chronological. */
  lemma {:induction false} InsertKeepsOrder(x: Message, s: seq<Message>)
    requires HasTimestamp(x) && AllTimestamped(s) && SortedByTime(s)
    ensures SortedByTime(InsertByTime(x, s))
  {
    if s == [] {
    } else if Timestamp(x) <= Timestamp(s[0]) {
      HeadIsOldest(s);
      PrependKeepsOrder(x, s);
    } else {
      var tail := s[1..];
      assert SortedByTime(tail);
      InsertKeepsOrder(x, tail);
      HeadIsOldest(s);
      assert forall y <- tail :: y in s;
      PrependKeepsOrder(s[0], InsertByTime(x, tail));
    }
  }

  /** `sorted(messages, key=lambda x: int(x.date_unixtime))`: a stable insertion sort. */
  function GetSortedMessages(ms: seq<Message>): (r: seq<Message>)
    requires AllTimestamped(ms)
    ensures |r| == |ms| && multiset(r) == multiset(ms)
    ensures AllTimestamped(r)
    ensures SortedByTime(r)
  {
    if ms == [] then []
    else
      assert ms == [ms[0]] + ms[1..];
      var rest := GetSortedMessages(ms[1..]);
      InsertKeepsOrder(ms[0], rest);
      InsertByTime(ms[0], rest)
  }

  /** Filtering when the inserted message goes in front. */
  lemma FilterInsertFront(p: Message -> bool, x: Message, s: seq<Message>)
    requires HasTimestamp(x) && AllTimestamped(s) && SortedByTime(s)
    requires s == [] || Timestamp(x) <= Timestamp(s[0])
    ensures Seqs.Filter(p, InsertByTime(x, s))
            == if p(x) then InsertByTime(x, Seqs.Filter(p, s)) else Seqs.Filter(p, s)
  {
    var f := Seqs.Filter(p, s);
    assert InsertByTime(x, s) == [x] + s;
    Seqs.FilterCons(p, x, s);
    if p(x) {
      if f == [] {
        assert InsertByTime(x, f) == [x] + f;
      } else {
        assert f[0] in f;
        assert f[0] in s;
        HeadIsOldest(s);
        assert Timestamp(x) <= Timestamp(f[0]);
        assert InsertByTime(x, f) == [x] + f;
      }
    }
  }

  /** Filtering an insertion is inserting into the filtered sequence (when the
      inserted message is kept at all). */
  lemma {:induction false} FilterInsert(p: Message -> bool, x: Message, s: seq<Message>)
    requires HasTimestamp(x) && AllTimestamped(s) && SortedByTime(s)
    ensures Seqs.Filter(p, InsertByTime(x, s))
            == if p(x) then InsertByTime(x, Seqs.Filter(p, s)) else Seqs.Filter(p, s)
  {
    if s == [] || Timestamp(x) <= Timestamp(s[0]) {
      FilterInsertFront(p, x, s);
    } else {
      var y, tail := s[0], s[1..];
      var r := InsertByTime(x, tail);
      assert InsertByTime(x, s) == [y] + r;
      assert s == [y] + tail;
      TailKeepsOrder(s);
      FilterInsert(p, x, tail);
      Seqs.FilterCons(p, y, r);
      Seqs.FilterCons(p, y, tail);
      var f1 := Seqs.Filter(p, tail);
      if p(y) && p(x) {
        assert ([y] + f1)[0] == y && ([y] + f1)[1..] == f1;
        assert InsertByTime(x, [y] + f1) == [y] + InsertByTime(x, f1);
      }
    }
  }

  /** Sorting then filtering gives what filtering then sorting gives. */
  lemma {:induction false} FilterCommutesWithSort(p: Message -> bool, ms: seq<Message>)
    requires AllTimestamped(ms)
    ensures Seqs.Filter(p, GetSortedMessages(ms)) == GetSortedMessages(Seqs.Filter(p, ms))
  {
    if ms != [] {
      var f1 := Seqs.Filter(p, ms[1..]);
      assert forall y <- ms[1..] :: y in ms;
      FilterCommutesWithSort(p, ms[1..]);
      FilterInsert(p, ms[0], GetSortedMessages(ms[1..]));
      if p(ms[0]) {
        assert ([ms[0]] + f1)[0] == ms[0] && ([ms[0]] + f1)[1..] == f1;
      }
    }
  }

  /** Messages that were all sent in the same second stay as they are. */
  lemma {:induction false} SortOfSimultaneous(ms: seq<Message>, t: nat)
    requires forall m <- ms :: HasTimestamp(m) && Timestamp(m) == t
    ensures AllTimestamped(ms) && GetSortedMessages(ms) == ms
  {
    if ms != [] {
      var x, tail := ms[0], ms[1..];
      assert ms == [x] + tail;
      assert forall y <- tail :: y in ms;
      SortOfSimultaneous(tail, t);
      assert GetSortedMessages(ms) == InsertByTime(x, GetSortedMessages(tail));
      if tail == [] {
        assert InsertByTime(x, tail) == [x] + tail;
      } else {
        assert tail[0] in ms;
        assert Timestamp(x) == t == Timestamp(tail[0]);
        assert InsertByTime(x, tail) == [x] + tail;
      }
    }
  }

  /** Messages already in time order are left as they are. */
  lemma {:induction false} SortOfInOrder(ms: seq<Message>)
    requires AllTimestamped(ms) && SortedByTime(ms)
    ensures GetSortedMessages(ms) == ms
  {
    if ms != [] {
      var tail := ms[1..];
      TailKeepsOrder(ms);
      SortOfInOrder(tail);
      assert ms == [ms[0]] + tail;
      if tail != [] {
        assert tail[0] == ms[1];
      }
    }
  }

  /** Sorting sorted messages again changes nothing. */
  lemma SortIdempotent(ms: seq<Message>)
    requires AllTimestamped(ms)
    ensures GetSortedMessages(GetSortedMessages(ms)) == GetSortedMessages(ms)
  {
    SortOfInOrder(GetSortedMessages(ms));
  }

  /** Stability: the messages sent in any one second keep their relative order. */
  lemma SortIsStable(ms: seq<Message>, t: nat)
    requires AllTimestamped(ms)
    ensures Seqs.Filter(AtTime(t), GetSortedMessages(ms)) == Seqs.Filter(AtTime(t), ms)
  {
    FilterCommutesWithSort(AtTime(t), ms);
    SortOfSimultaneous(Seqs.Filter(AtTime(t), ms), t);
  }

  /** Two chronological sequences with the same messages and the same order
      within each second start with the same message. */
  lemma SameFirst(a: seq<Message>, b: seq<Message>)
    requires AllTimestamped(a) && SortedByTime(a)
    requires AllTimestamped(b) && SortedByTime(b)
    requires multiset(a) == multiset(b) && a != []
    requires forall t: nat :: Seqs.Filter(AtTime(t), a) == Seqs.Filter(AtTime(t), b)
    ensures b != [] && a[0] == b[0]
  {
    assert |a| == |multiset(a)| == |multiset(b)| == |b|;
    var a0, a1, b0, b1 := a[0], a[1..], b[0], b[1..];
    assert a == [a0] + a1 && b == [b0] + b1;
    assert a0 in multiset(b) && b0 in multiset(a);
    HeadIsOldest(a);
    HeadIsOldest(b);
    var t := Timestamp(a0);
    assert Timestamp(b0) == t;
    var q := AtTime(t);
    assert q(a0) && q(b0);
    Seqs.FilterCons(q, a0, a1);
    Seqs.FilterCons(q, b0, b1);
    var fa, fb := [a0] + Seqs.Filter(q, a1), [b0] + Seqs.Filter(q, b1);
    assert Seqs.Filter(q, a) == fa && Seqs.Filter(q, b) == fb;
    assert Seqs.Filter(q, a) == Seqs.Filter(q, b);
    assert fa[0] == a0 && fb[0] == b0;
  }

  /** Removing a common first message keeps the order within each second equal. */
  lemma DropFirst(x: Message, a: seq<Message>, b: seq<Message>)
    requires forall t: nat :: Seqs.Filter(AtTime(t), [x] + a) == Seqs.Filter(AtTime(t), [x] + b)
    ensures forall t: nat :: Seqs.Filter(AtTime(t), a) == Seqs.Filter(AtTime(t), b)
  {
    forall t: nat ensures Seqs.Filter(AtTime(t), a) == Seqs.Filter(AtTime(t), b) {
      var q := AtTime(t);
      assert Seqs.Filter(q, [x] + a) == Seqs.Filter(q, [x] + b);
      Seqs.FilterCons(q, x, a);
      Seqs.FilterCons(q, x, b);
      var fa, fb := Seqs.Filter(q, a), Seqs.Filter(q, b);
      if q(x) {
        assert [x] + fa == [x] + fb;
        assert fa == ([x] + fa)[1..] && fb == ([x] + fb)[1..];
      } else {
        assert fa == Seqs.Filter(q, [x] + a) && fb == Seqs.Filter(q, [x] + b);
      }
    }
  }

  lemma SameRest(x: Message, a: seq<Message>, b: seq<Message>)
    requires multiset([x] + a) == multiset([x] + b)
    ensures multiset(a) == multiset(b)
  {
    assert multiset([x] + a) == multiset{x} + multiset(a);
    assert multiset([x] + b) == multiset{x} + multiset(b);
    assert multiset(a) == multiset([x] + a) - multiset{x};
  }

  lemma TailKeepsOrder(s: seq<Message>)
    requires AllTimestamped(s) && SortedByTime(s) && s != []
    ensures AllTimestamped(s[1..]) && SortedByTime(s[1..])
  {
    assert forall y <- s[1..] :: y in s;
  }

  /** Two chronological sequences with the same messages, and the same order
      among the messages of each second, are equal. */
  lemma {:induction false} ChronologicalAndStableDetermine(a: seq<Message>, b: seq<Message>)
    requires AllTimestamped(a) && SortedByTime(a)
    requires AllTimestamped(b) && SortedByTime(b)
    requires multiset(a) == multiset(b)
    requires forall t: nat :: Seqs.Filter(AtTime(t), a) == Seqs.Filter(AtTime(t), b)
    ensures a == b
  {
    if a == [] {
      assert |b| == |multiset(b)| == 0;
    } else {
      SameFirst(a, b);
      var x, a1, b1 := a[0], a[1..], b[1..];
      assert a == [x] + a1 && b == [x] + b1;
      DropFirst(x, a1, b1);
      SameRest(x, a1, b1);
      TailKeepsOrder(a);
      TailKeepsOrder(b);
      ChronologicalAndStableDetermine(a1, b1);
    }
  }

  /** Any chronological, stable permutation of `ms` is the one computed here,
      so the model agrees with whatever stable algorithm `sorted` uses. */
  lemma StableSortIsUnique(ms: seq<Message>, r: seq<Message>)
    requires AllTimestamped(ms) && AllTimestamped(r) && SortedByTime(r)
    requires multiset(r) == multiset(ms)
    requires forall t: nat :: Seqs.Filter(AtTime(t), r) == Seqs.Filter(AtTime(t), ms)
    ensures r == GetSortedMessages(ms)
  {
    forall t: nat ensures Seqs.Filter(AtTime(t), r) == Seqs.Filter(AtTime(t), GetSortedMessages(ms)) {
      SortIsStable(ms, t);
    }
    ChronologicalAndStableDetermine(r, GetSortedMessages(ms));
  }
}
