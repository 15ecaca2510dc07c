/** Choosing one alert among several fired ones: the candidates are sorted
    (stably) by the key `(severity, -drop, horizon)` and the first is taken. */
module Selection {
  import opened Weather

  /** The sort key of an alert; `negDrop` is the negated drop, so that a larger
      drop sorts first. */
  datatype PriorityKey = PriorityKey(severity: int, negDrop: int, horizon: int)

  function KeyOf(a: Alert): PriorityKey {
    PriorityKey(a.rule.severity, -a.drop, a.rule.horizon)
  }

  /** Lexicographic "strictly smaller" on keys: the order of Python tuples. */
  predicate Precedes(p: PriorityKey, q: PriorityKey) {
    || p.severity < q.severity
    || (p.severity == q.severity && p.negDrop < q.negDrop)
    || (p.severity == q.severity && p.negDrop == q.negDrop && p.horizon < q.horizon)
  }

  /** `Precedes` is a strict total order on keys, so a stable sort is
      determined and "the first element after sorting" is well defined. */
  lemma PrecedesIsStrictTotalOrder()
    ensures forall p :: !Precedes(p, p)
    ensures forall p, q, r :: Precedes(p, q) && Precedes(q, r) ==> Precedes(p, r)
    ensures forall p, q :: p != q ==> Precedes(p, q) || Precedes(q, p)
  {
  }

  /** Index `k` is where a stable sort by key takes its first element from:
      no candidate has a smaller key, and every earlier candidate has a
      strictly larger key. */
  ghost predicate IsFirstLeast(cs: seq<Alert>, k: int) {
    && 0 <= k < |cs|
    && forall j :: 0 <= j < |cs| ==>
         && !Precedes(KeyOf(cs[j]), KeyOf(cs[k]))
         && (j < k ==> Precedes(KeyOf(cs[k]), KeyOf(cs[j])))
  }

  /** The position of the alert that sorting and taking the head selects
      (pressure_notification.py:135-136). */
  function FirstLeast(cs: seq<Alert>): (k: nat)
    requires |cs| > 0
    ensures IsFirstLeast(cs, k)
  {
    if |cs| == 1 then 0
    else
      var init := cs[..|cs| - 1];
      var k := FirstLeast(init);
      assert forall j :: 0 <= j < |init| ==> init[j] == cs[j];
      if Precedes(KeyOf(cs[|cs| - 1]), KeyOf(cs[k])) then |cs| - 1 else k
  }

  /** At most one position satisfies the selection criterion. */
  lemma FirstLeastUnique(cs: seq<Alert>, k1: int, k2: int)
    requires IsFirstLeast(cs, k1) && IsFirstLeast(cs, k2)
    ensures k1 == k2
  {
    assert !Precedes(KeyOf(cs[k2]), KeyOf(cs[k1]));
    assert !Precedes(KeyOf(cs[k1]), KeyOf(cs[k2]));
  }
}
