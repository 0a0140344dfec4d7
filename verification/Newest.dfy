/** The event that is kept when later messages replace earlier ones. */
module Newest {

  /** `e` is the first of the events with the greatest date. */
  ghost predicate FirstNewest<E(!new)>(evts: seq<E>, date: E -> int, e: E) {
    exists i :: 0 <= i < |evts| && evts[i] == e && IsFirstNewest(evts, date, i)
  }

  ghost predicate IsFirstNewest<E(!new)>(evts: seq<E>, date: E -> int, i: int)
    requires 0 <= i < |evts|
  {
    forall j | 0 <= j < |evts| ::
      date(evts[j]) <= date(evts[i]) && (j < i ==> date(evts[j]) < date(evts[i]))
  }

  lemma FirstNewestSnoc<E(!new)>(evts: seq<E>, date: E -> int, e: E, next: E)
    requires FirstNewest(evts, date, e)
    ensures FirstNewest(evts + [next], date, if date(e) < date(next) then next else e)
  {
    var i :| 0 <= i < |evts| && evts[i] == e && IsFirstNewest(evts, date, i);
    var all := evts + [next];
    var k := if date(e) < date(next) then |evts| else i;
    assert all[k] == (if date(e) < date(next) then next else e) && IsFirstNewest(all, date, k);
  }

  lemma FirstNewestOne<E(!new)>(date: E -> int, e: E)
    ensures FirstNewest([e], date, e)
  {
    assert [e][0] == e && IsFirstNewest([e], date, 0);
  }
}
