/** `uv_tidy/rules.py`: building the criteria, sorting records by a chosen
    field, keeping the records to remove up to a limit, and choosing an
    age threshold that targets a number of removals. */
module Rules {
  import opened Wrappers
  import opened Text
  import opened Records
  import Utils
  import Core

  function Min(a: int, b: int): int {
    if a <= b then a else b
  }

  function Max(a: int, b: int): int {
    if a >= b then a else b
  }

  // ---------------------------------------------------------------------
  // make_criteria
  // ---------------------------------------------------------------------

  /** The parsed command-line arguments that feed the criteria; `None` is
      an absent key (or, for `min_size_mb`, a `None` value). */
  datatype Args = Args(minAgeDays: Option<int>, unusedOnly: Option<bool>, minSizeMb: Option<int>)

  /** `make_criteria`: `min_age_days` defaults to 30, `unused_only` to true,
      and `min_size_mb` is present exactly when the arguments carry one,
      zero included. */
  function MakeCriteria(args: Args): (c: Criteria)
    ensures c.minAgeDays == Some(args.minAgeDays.GetOr(30))
    ensures c.unusedOnly == Some(args.unusedOnly.GetOr(true))
    ensures c.minSizeMb.Some? <==> args.minSizeMb.Some?
    ensures c.minSizeMb.Some? ==> c.minSizeMb.value == args.minSizeMb.value
  {
    Criteria(Some(args.minAgeDays.GetOr(30)), Some(args.unusedOnly.GetOr(true)), args.minSizeMb)
  }

  /** What the evaluator reads from the criteria made from `args`: the
      age threshold and the activity switch with their defaults, and a
      size check only for a non-zero size (a size of 0 is kept in the
      criteria but switches the check off). */
  lemma {:induction false} MadeCriteriaAsEvaluated(args: Args)
    ensures Core.MinAgeDays(MakeCriteria(args)) == args.minAgeDays.GetOr(30)
    ensures Core.UnusedOnly(MakeCriteria(args)) == args.unusedOnly.GetOr(true)
    ensures Core.SizeCheckOn(MakeCriteria(args)) <==> args.minSizeMb.Some? && args.minSizeMb.value != 0
  {
  }

  // ---------------------------------------------------------------------
  // sort_venvs_by_criteria
  // ---------------------------------------------------------------------

  /** The record fields a sort may use. */
  datatype SortField = AgeDays | SizeBytes | Name | LastAccessed | LastModified | Created

  /** `valid_sort_keys.get(sort_by.lower(), "age_days")`. */
  function SortFieldOf(sortBy: string): (f: SortField)
    ensures f == SizeBytes <==> Lower(sortBy) == "size"
    ensures f == Name <==> Lower(sortBy) == "name"
    ensures f == LastAccessed <==> Lower(sortBy) == "accessed"
    ensures f == LastModified <==> Lower(sortBy) == "modified"
    ensures f == Created <==> Lower(sortBy) == "created"
  {
    var k := Lower(sortBy);
    if k == "age" then AgeDays
    else if k == "size" then SizeBytes
    else if k == "name" then Name
    else if k == "accessed" then LastAccessed
    else if k == "modified" then LastModified
    else if k == "created" then Created
    else AgeDays
  }

  lemma {:induction false} LowerIdempotent(s: string)
    ensures Lower(Lower(s)) == Lower(s)
  {
    assert forall i :: 0 <= i < |s| ==> Lower(Lower(s))[i] == Lower(s)[i];
  }

  /** The sort field does not depend on letter case. */
  lemma {:induction false} SortFieldIgnoresCase(sortBy: string)
    ensures SortFieldOf(Lower(sortBy)) == SortFieldOf(sortBy)
  {
    LowerIdempotent(sortBy);
  }

  /** A sort key: a number or a string. */
  datatype Key = Num(n: int) | Str(s: string)

  /** `safe_sort_key`: the field's value, or 0 for a missing age or size
      and "" for a missing name or time. */
  function KeyOf(r: Record, f: SortField): Key {
    match f
    case AgeDays => Num(r.ageTenths.GetOr(0))
    case SizeBytes => Num(r.sizeBytes.GetOr(0))
    case Name => Str(r.name.GetOr(""))
    case LastAccessed => Str(r.lastAccessed.GetOr(""))
    case LastModified => Str(r.lastModified.GetOr(""))
    case Created => Str(r.created.GetOr(""))
  }

  /** Python's `<` on keys. The keys of one field are all numbers or all
      strings; placing numbers first only makes the order total. */
  predicate KeyLess(a: Key, b: Key) {
    match a
    case Num(x) => (match b case Num(y) => x < y case Str(_) => true)
    case Str(x) => (match b case Num(_) => false case Str(y) => StrLess(x, y))
  }

  lemma {:induction false} KeyLessIrreflexive(a: Key)
    ensures !KeyLess(a, a)
  {
    if a.Str? {
      StrLessIrreflexive(a.s);
    }
  }

  lemma {:induction false} KeyLessTransitive(a: Key, b: Key, c: Key)
    requires KeyLess(a, b) && KeyLess(b, c)
    ensures KeyLess(a, c)
  {
    if a.Str? && b.Str? && c.Str? {
      StrLessTransitive(a.s, b.s, c.s);
    }
  }

  lemma {:induction false} KeyLessTotal(a: Key, b: Key)
    ensures a == b || KeyLess(a, b) || KeyLess(b, a)
  {
    if a.Str? && b.Str? {
      StrLessTrichotomy(a.s, b.s);
    }
  }

  /** `a` must come before `b`: a strictly larger key when descending, a
      strictly smaller one when ascending. */
  predicate Before(a: Record, b: Record, f: SortField, desc: bool) {
    if desc then KeyLess(KeyOf(b, f), KeyOf(a, f)) else KeyLess(KeyOf(a, f), KeyOf(b, f))
  }

  lemma {:induction false} BeforeAsymmetric(a: Record, b: Record, f: SortField, desc: bool)
    requires Before(a, b, f, desc)
    ensures !Before(b, a, f, desc) && KeyOf(a, f) != KeyOf(b, f)
  {
    KeyLessIrreflexive(KeyOf(a, f));
    if Before(b, a, f, desc) {
      KeyLessTransitive(KeyOf(a, f), KeyOf(b, f), KeyOf(a, f));
      KeyLessTransitive(KeyOf(b, f), KeyOf(a, f), KeyOf(b, f));
    }
  }

  lemma {:induction false} NotBeforeTransitive(a: Record, b: Record, c: Record, f: SortField, desc: bool)
    requires !Before(c, b, f, desc) && !Before(b, a, f, desc)
    ensures !Before(c, a, f, desc)
  {
    var ka, kb, kc := KeyOf(a, f), KeyOf(b, f), KeyOf(c, f);
    KeyLessTotal(ka, kb);
    if Before(c, a, f, desc) {
      if desc {
        if KeyLess(kb, ka) {
          KeyLessTransitive(kb, ka, kc);
        }
      } else {
        if KeyLess(ka, kb) {
          KeyLessTransitive(kc, ka, kb);
        }
      }
    }
  }

  /** No record is placed after one it must come before. */
  predicate Sorted(s: seq<Record>, f: SortField, desc: bool) {
    forall i, j :: 0 <= i < j < |s| ==> !Before(s[j], s[i], f, desc)
  }

  /** Insert `x` ahead of the first record that does not have to come
      before it, so `x` precedes the records of equal key. */
  function Insert(x: Record, t: seq<Record>, f: SortField, desc: bool): (r: seq<Record>)
    ensures |r| == |t| + 1
  {
    if t == [] || !Before(t[0], x, f, desc) then [x] + t
    else [t[0]] + Insert(x, t[1..], f, desc)
  }

  /** A stable sort: insertion of each record, last to first, into the
      sorted rest. */
  function StableSort(s: seq<Record>, f: SortField, desc: bool): (r: seq<Record>)
    ensures |r| == |s|
  {
    if s == [] then [] else Insert(s[0], StableSort(s[1..], f, desc), f, desc)
  }

  /** Inserting adds `x` and keeps every other record. */
  lemma {:induction false} InsertPermutes(x: Record, t: seq<Record>, f: SortField, desc: bool)
    ensures multiset(Insert(x, t, f, desc)) == multiset(t) + multiset{x}
    decreases |t|
  {
    if t != [] && Before(t[0], x, f, desc) {
      InsertPermutes(x, t[1..], f, desc);
      assert t == [t[0]] + t[1..];
    }
  }

  /** The sort keeps every record, the same number of times. */
  lemma {:induction false} StableSortPermutes(s: seq<Record>, f: SortField, desc: bool)
    ensures multiset(StableSort(s, f, desc)) == multiset(s)
    decreases |s|
  {
    if s != [] {
      StableSortPermutes(s[1..], f, desc);
      InsertPermutes(s[0], StableSort(s[1..], f, desc), f, desc);
      assert s == [s[0]] + s[1..];
    }
  }

  /** `sort_venvs_by_criteria`: descending for every field but the name. */
  function SortVenvs(venvs: seq<Record>, sortBy: string): (r: seq<Record>)
    ensures venvs == [] ==> r == []
  {
    if venvs == [] then []
    else
      var f := SortFieldOf(sortBy);
      StableSort(venvs, f, f != Name)
  }

  lemma {:induction false} InsertSorted(x: Record, t: seq<Record>, f: SortField, desc: bool)
    requires Sorted(t, f, desc)
    ensures Sorted(Insert(x, t, f, desc), f, desc)
    decreases |t|
  {
    if t == [] || !Before(t[0], x, f, desc) {
      InsertAtFrontSorted(x, t, f, desc);
    } else {
      InsertSorted(x, t[1..], f, desc);
      InsertBehindSorted(x, t, f, desc);
    }
  }

  /** `x` placed ahead of a sorted `t` that does not have to come first. */
  lemma {:induction false} InsertAtFrontSorted(x: Record, t: seq<Record>, f: SortField, desc: bool)
    requires Sorted(t, f, desc) && (t == [] || !Before(t[0], x, f, desc))
    ensures Sorted([x] + t, f, desc)
  {
    var r := [x] + t;
    forall i, j | 0 <= i < j < |r|
      ensures !Before(r[j], r[i], f, desc)
    {
      assert r[j] == t[j - 1];
      if i == 0 && j > 1 {
        NotBeforeTransitive(x, t[0], t[j - 1], f, desc);
      } else if i > 0 {
        assert r[i] == t[i - 1];
      }
    }
  }

  /** `t[0]`, which has to come before `x`, ahead of the sorted insertion
      of `x` into the rest. */
  lemma {:induction false} InsertBehindSorted(x: Record, t: seq<Record>, f: SortField, desc: bool)
    requires Sorted(t, f, desc) && t != [] && Before(t[0], x, f, desc)
    requires Sorted(Insert(x, t[1..], f, desc), f, desc)
    ensures Sorted([t[0]] + Insert(x, t[1..], f, desc), f, desc)
  {
    var rest := Insert(x, t[1..], f, desc);
    var r := [t[0]] + rest;
    forall i, j | 0 <= i < j < |r|
      ensures !Before(r[j], r[i], f, desc)
    {
      if i > 0 {
        assert r[i] == rest[i - 1] && r[j] == rest[j - 1];
      } else {
        assert r[0] == t[0] && r[j] == rest[j - 1];
        HeadStaysAhead(x, t, j - 1, f, desc);
      }
    }
  }

  /** Nothing in the insertion of `x` into the rest of a sorted `t` has to
      come before `t[0]` when `t[0]` has to come before `x`. */
  lemma {:induction false} HeadStaysAhead(x: Record, t: seq<Record>, k: int, f: SortField, desc: bool)
    requires Sorted(t, f, desc) && t != [] && Before(t[0], x, f, desc)
    requires 0 <= k < |Insert(x, t[1..], f, desc)|
    ensures !Before(Insert(x, t[1..], f, desc)[k], t[0], f, desc)
  {
    var y := Insert(x, t[1..], f, desc)[k];
    InsertPermutes(x, t[1..], f, desc);
    assert y in multiset(Insert(x, t[1..], f, desc));
    if y == x {
      BeforeAsymmetric(t[0], x, f, desc);
    } else {
      assert y in multiset(t[1..]);
      var m :| 0 <= m < |t[1..]| && t[1..][m] == y;
      assert t[m + 1] == y;
    }
  }

  lemma {:induction false} StableSortSorted(s: seq<Record>, f: SortField, desc: bool)
    ensures Sorted(StableSort(s, f, desc), f, desc)
    decreases |s|
  {
    if s != [] {
      StableSortSorted(s[1..], f, desc);
      InsertSorted(s[0], StableSort(s[1..], f, desc), f, desc);
    }
  }

  /** The records whose key for `f` is `k`, in order. */
  function WithKey(s: seq<Record>, f: SortField, k: Key): seq<Record> {
    if s == [] then [] else (if KeyOf(s[0], f) == k then [s[0]] else []) + WithKey(s[1..], f, k)
  }

  lemma {:induction false} WithKeyAppend(a: seq<Record>, b: seq<Record>, f: SortField, k: Key)
    ensures WithKey(a + b, f, k) == WithKey(a, f, k) + WithKey(b, f, k)
    decreases |a|
  {
    if a == [] {
      assert a + b == b;
    } else {
      assert (a + b)[0] == a[0] && (a + b)[1..] == a[1..] + b;
      var h := if KeyOf(a[0], f) == k then [a[0]] else [];
      var x, y := WithKey(a[1..], f, k), WithKey(b, f, k);
      assert WithKey(a + b, f, k) == h + WithKey(a[1..] + b, f, k);
      WithKeyAppend(a[1..], b, f, k);
      assert h + (x + y) == (h + x) + y;
    }
  }

  lemma {:induction false} WithKeySingle(a: Record, f: SortField, k: Key)
    ensures WithKey([a], f, k) == if KeyOf(a, f) == k then [a] else []
  {
    assert [a][1..] == [];
  }

  /** Two records of different keys cannot both be kept by `WithKey`. */
  lemma {:induction false} WithKeySwap(a: Record, b: Record, s: seq<Record>, f: SortField, k: Key)
    requires KeyOf(a, f) != KeyOf(b, f)
    ensures WithKey([a], f, k) + (WithKey([b], f, k) + s) == WithKey([b], f, k) + (WithKey([a], f, k) + s)
  {
    WithKeySingle(a, f, k);
    WithKeySingle(b, f, k);
  }

  lemma {:induction false} InsertStable(x: Record, t: seq<Record>, f: SortField, desc: bool, k: Key)
    ensures WithKey(Insert(x, t, f, desc), f, k) == WithKey([x] + t, f, k)
    decreases |t|
  {
    if t != [] && Before(t[0], x, f, desc) {
      var t0, tail := t[0], t[1..];
      var rest := Insert(x, tail, f, desc);
      assert Insert(x, t, f, desc) == [t0] + rest;
      assert t == [t0] + tail;
      BeforeAsymmetric(t0, x, f, desc);
      InsertStable(x, tail, f, desc, k);
      WithKeyAppend([t0], rest, f, k);
      WithKeyAppend([x], tail, f, k);
      WithKeySwap(t0, x, WithKey(tail, f, k), f, k);
      WithKeyAppend([t0], tail, f, k);
      WithKeyAppend([x], t, f, k);
    }
  }

  lemma {:induction false} StableSortStable(s: seq<Record>, f: SortField, desc: bool, k: Key)
    ensures WithKey(StableSort(s, f, desc), f, k) == WithKey(s, f, k)
    decreases |s|
  {
    if s != [] {
      var rest := StableSort(s[1..], f, desc);
      StableSortStable(s[1..], f, desc, k);
      InsertStable(s[0], rest, f, desc, k);
      WithKeyAppend([s[0]], rest, f, k);
      WithKeyAppend([s[0]], s[1..], f, k);
      assert s == [s[0]] + s[1..];
    }
  }

  /** The sorted records are the input's records, the same number of
      times each; the keys do not increase (they do not decrease when
      sorting by name); and records of equal key keep their input order. */
  lemma {:induction false} SortVenvsMeaning(venvs: seq<Record>, sortBy: string)
    ensures var r := SortVenvs(venvs, sortBy);
      |r| == |venvs| && multiset(r) == multiset(venvs)
    ensures var r := SortVenvs(venvs, sortBy); var f := SortFieldOf(sortBy);
      f != Name ==> forall i, j :: 0 <= i < j < |r| ==> !KeyLess(KeyOf(r[i], f), KeyOf(r[j], f))
    ensures var r := SortVenvs(venvs, sortBy); var f := SortFieldOf(sortBy);
      f == Name ==> forall i, j :: 0 <= i < j < |r| ==> !KeyLess(KeyOf(r[j], f), KeyOf(r[i], f))
    ensures var r := SortVenvs(venvs, sortBy); var f := SortFieldOf(sortBy);
      forall k :: WithKey(r, f, k) == WithKey(venvs, f, k)
  {
    var f := SortFieldOf(sortBy);
    if venvs != [] {
      StableSortPermutes(venvs, f, f != Name);
      StableSortSorted(venvs, f, f != Name);
      forall k {
        StableSortStable(venvs, f, f != Name, k);
      }
    }
  }

  /** Three records that must come, in a descending sort, as the second,
      the third and then the first come out in that order. */
  lemma {:induction false} SortThreeDescending(a: Record, b: Record, c: Record, f: SortField)
    requires Before(b, c, f, true) && Before(c, a, f, true)
    ensures StableSort([a, b, c], f, true) == [b, c, a]
  {
    BeforeAsymmetric(b, c, f, true);
    KeyLessTransitive(KeyOf(a, f), KeyOf(c, f), KeyOf(b, f));
    assert [a, b, c][1..] == [b, c] && [b, c][1..] == [c] && [c][1..] == [];
    assert StableSort([c], f, true) == Insert(c, [], f, true) == [c];
    assert StableSort([b, c], f, true) == Insert(b, [c], f, true) == [b, c];
    InsertLast(a, [b, c], f, true);
    assert StableSort([a, b, c], f, true) == Insert(a, [b, c], f, true);
    assert [b, c] + [a] == [b, c, a];
  }

  /** Three records 10, 30 and 20 days old, 1000, 5000 and 3000 bytes
      large: by age and by size the second, the third, then the first. */
  lemma {:induction false} SortThreeByAgeAndSize(s: seq<Record>)
    requires |s| == 3
    requires s[0].ageTenths == Some(100) && s[1].ageTenths == Some(300) && s[2].ageTenths == Some(200)
    requires s[0].sizeBytes == Some(1000) && s[1].sizeBytes == Some(5000) && s[2].sizeBytes == Some(3000)
    ensures SortVenvs(s, "age") == [s[1], s[2], s[0]]
    ensures SortVenvs(s, "SIZE") == [s[1], s[2], s[0]]
  {
    assert Lower("age") == "age";
    assert Lower("SIZE") == "size";
    assert s == [s[0], s[1], s[2]];
    SortThreeDescending(s[0], s[1], s[2], AgeDays);
    SortThreeDescending(s[0], s[1], s[2], SizeBytes);
  }

  // ---------------------------------------------------------------------
  // prune_candidates
  // ---------------------------------------------------------------------

  /** Where `s[:limit]` ends for a list of `n` items. */
  function SliceEnd(n: nat, limit: int): (e: nat)
    ensures e <= n
  {
    if limit >= 0 then Min(limit, n) else Max(0, n + limit)
  }

  /** `prune_candidates`: the records to remove, cut to `limit` when more. */
  function PruneCandidates(venvs: seq<Record>, limit: Option<int>): seq<Record> {
    var toRemove := Core.WithStatus(venvs, Remove);
    if limit.Some? && |toRemove| > limit.value then toRemove[..SliceEnd(|toRemove|, limit.value)]
    else toRemove
  }

  lemma {:induction false} WithStatusIsSubsequence(rs: seq<Record>, s: Status)
    ensures Utils.IsSubsequence(Core.WithStatus(rs, s), rs)
    decreases |rs|
  {
    if rs != [] {
      WithStatusIsSubsequence(rs[1..], s);
      var w := Core.WithStatus(rs, s);
      var rest := Core.WithStatus(rs[1..], s);
      if rs[0].status == s {
        assert w == [rs[0]] + rest;
        assert w[0] == rs[0] && w[1..] == rest;
      } else {
        assert w == rest;
      }
    }
  }

  lemma {:induction false} SubsequencePrefix<T>(a: seq<T>, b: seq<T>, k: nat)
    requires Utils.IsSubsequence(a, b) && k <= |a|
    ensures Utils.IsSubsequence(a[..k], b)
    decreases |b|
  {
    if k > 0 {
      if a[0] == b[0] && Utils.IsSubsequence(a[1..], b[1..]) {
        SubsequencePrefix(a[1..], b[1..], k - 1);
        assert a[..k][1..] == a[1..][..k - 1];
      } else {
        SubsequencePrefix(a, b[1..], k);
      }
    }
  }

  /** The result is a prefix of the records to remove, all of status
      remove, in input order; without a limit, or with one that is not
      smaller than their number, it is all of them; otherwise it has
      `limit` records, or for a negative limit that many fewer than all. */
  lemma {:induction false} PruneCandidatesMeaning(venvs: seq<Record>, limit: Option<int>)
    ensures var r := PruneCandidates(venvs, limit); var rm := Core.WithStatus(venvs, Remove);
      |r| <= |rm| && r == rm[..|r|] && Utils.IsSubsequence(r, venvs) &&
      (forall x :: x in r ==> x.status == Remove) &&
      |r| == (if limit.None? || limit.value >= |rm| then |rm|
              else if limit.value >= 0 then limit.value
              else Max(0, |rm| + limit.value))
  {
    var rm := Core.WithStatus(venvs, Remove);
    var r := PruneCandidates(venvs, limit);
    WithStatusIsSubsequence(venvs, Remove);
    SubsequencePrefix(rm, venvs, |r|);
    assert rm[..|rm|] == rm;
    forall x | x in r
      ensures x.status == Remove
    {
      assert x in rm;
    }
  }

  /** Records of status remove, keep, remove, remove and error: without a
      limit, or with one of 10, the first, third and fourth; with a limit
      of 2, the first and the third. */
  lemma {:induction false} PruneFiveRecords(s: seq<Record>)
    requires |s| == 5
    requires s[0].status == Remove && s[1].status == Keep && s[2].status == Remove
    requires s[3].status == Remove && s[4].status == Error
    ensures PruneCandidates(s, None) == [s[0], s[2], s[3]]
    ensures PruneCandidates(s, Some(10)) == [s[0], s[2], s[3]]
    ensures PruneCandidates(s, Some(2)) == [s[0], s[2]]
  {
    RemovesOfFive(s);
    assert [s[0], s[2], s[3]][..2] == [s[0], s[2]];
  }

  lemma {:induction false} RemovesOfFive(s: seq<Record>)
    requires |s| == 5
    requires s[0].status == Remove && s[1].status == Keep && s[2].status == Remove
    requires s[3].status == Remove && s[4].status == Error
    ensures Core.WithStatus(s, Remove) == [s[0], s[2], s[3]]
  {
    assert s[4..][1..] == [];
    assert s[3..][1..] == s[4..];
    assert s[2..][1..] == s[3..];
    assert s[1..][1..] == s[2..];
    assert Core.WithStatus(s[4..], Remove) == [];
    assert Core.WithStatus(s[3..], Remove) == [s[3]];
    assert Core.WithStatus(s[2..], Remove) == [s[2], s[3]];
    assert Core.WithStatus(s[1..], Remove) == [s[2], s[3]];
  }

  // ---------------------------------------------------------------------
  // auto_adjust_criteria
  // ---------------------------------------------------------------------

  /** `int(t / 10)`: a number of tenths truncated toward zero to whole days. */
  function TruncTenths(t: int): int {
    if t >= 0 then t / 10 else -((-t) / 10)
  }

  /** `sorted(venvs, key=age_days, reverse=True)`. */
  function OldestFirst(venvs: seq<Record>): (r: seq<Record>)
    ensures |r| == |venvs|
  {
    StableSort(venvs, AgeDays, true)
  }

  /** The record whose age sets the threshold: index `idx` after sorting by
      age, oldest first. */
  function ThresholdRecord(venvs: seq<Record>, idx: int): Record
    requires 0 <= idx < |venvs|
  {
    OldestFirst(venvs)[idx]
  }

  /** `auto_adjust_criteria`: seven days when the list is empty or the
      target is not between 0 and the number of records (exclusive);
      otherwise the age of the record at index `target` of the oldest-first
      order (seven days when it has none), truncated, and at least seven. */
  function AutoAdjustCriteria(venvs: seq<Record>, target: int): (c: Criteria)
    ensures c.unusedOnly == Some(true) && c.minSizeMb.None?
    ensures c.minAgeDays.Some? && c.minAgeDays.value >= 7
    ensures venvs == [] || target <= 0 || target >= |venvs| ==> c.minAgeDays == Some(7)
  {
    if venvs == [] || target <= 0 || target >= |venvs| then Criteria(Some(7), Some(true), None)
    else
      var idx := Min(target, |venvs| - 1);
      var t := ThresholdRecord(venvs, idx).ageTenths.GetOr(70);
      Criteria(Some(Max(7, TruncTenths(t))), Some(true), None)
  }

  /** `age_days` in tenths, 0 when missing: the key the age sort uses. */
  function AgeOf(r: Record): int {
    r.ageTenths.GetOr(0)
  }

  /** How many records are at least `m` tenths of a day old (a missing age
      counting as 0). */
  function CountAgeAtLeast(s: seq<Record>, m: int): nat {
    if s == [] then 0 else (if AgeOf(s[0]) >= m then 1 else 0) + CountAgeAtLeast(s[1..], m)
  }

  /** Sorting by age, oldest first, puts `a` before `b` exactly when it is older. */
  lemma {:induction false} BeforeByAge(a: Record, b: Record)
    ensures Before(a, b, AgeDays, true) <==> AgeOf(a) > AgeOf(b)
  {
  }

  lemma {:induction false} CountInsert(x: Record, t: seq<Record>, f: SortField, desc: bool, m: int)
    ensures CountAgeAtLeast(Insert(x, t, f, desc), m) == CountAgeAtLeast([x] + t, m)
    decreases |t|
  {
    if t != [] && Before(t[0], x, f, desc) {
      CountInsert(x, t[1..], f, desc, m);
      assert ([x] + t)[1..] == t;
      assert ([x] + t[1..])[1..] == t[1..];
      assert ([t[0]] + Insert(x, t[1..], f, desc))[1..] == Insert(x, t[1..], f, desc);
    }
  }

  lemma {:induction false} CountSort(s: seq<Record>, f: SortField, desc: bool, m: int)
    ensures CountAgeAtLeast(StableSort(s, f, desc), m) == CountAgeAtLeast(s, m)
    decreases |s|
  {
    if s != [] {
      CountSort(s[1..], f, desc, m);
      CountInsert(s[0], StableSort(s[1..], f, desc), f, desc, m);
      assert ([s[0]] + StableSort(s[1..], f, desc))[1..] == StableSort(s[1..], f, desc);
      assert s == [s[0]] + s[1..];
    }
  }

  /** When the first `k` records are at least `m` old and the others are
      younger, exactly `k` records are at least `m` old; when only the
      first part is known, at least `k` are. */
  lemma {:induction false} CountSplit(s: seq<Record>, k: nat, m: int)
    requires k <= |s|
    requires forall i :: 0 <= i < k ==> AgeOf(s[i]) >= m
    ensures CountAgeAtLeast(s, m) >= k
    ensures (forall i :: k <= i < |s| ==> AgeOf(s[i]) < m) ==> CountAgeAtLeast(s, m) == k
    decreases |s|
  {
    if s != [] {
      if k > 0 {
        CountSplit(s[1..], k - 1, m);
      } else {
        CountSplit(s[1..], 0, m);
      }
    }
  }

  /** In the oldest-first order, the records before index `idx` are at
      least as old as the one there, and those after are no older. */
  lemma {:induction false} AgeOrderAround(venvs: seq<Record>, idx: int)
    requires 0 <= idx < |venvs|
    ensures forall i :: 0 <= i <= idx ==> AgeOf(OldestFirst(venvs)[i]) >= AgeOf(OldestFirst(venvs)[idx])
    ensures forall i :: idx <= i < |venvs| ==> AgeOf(OldestFirst(venvs)[i]) <= AgeOf(OldestFirst(venvs)[idx])
  {
    var sorted := OldestFirst(venvs);
    StableSortSorted(venvs, AgeDays, true);
    forall i | 0 <= i < idx
      ensures AgeOf(sorted[i]) >= AgeOf(sorted[idx])
    {
      assert !Before(sorted[idx], sorted[i], AgeDays, true);
      BeforeByAge(sorted[idx], sorted[i]);
    }
    forall i | idx < i < |sorted|
      ensures AgeOf(sorted[i]) <= AgeOf(sorted[idx])
    {
      assert !Before(sorted[i], sorted[idx], AgeDays, true);
      BeforeByAge(sorted[i], sorted[idx]);
    }
  }

  /** When the record at index `idx` of the oldest-first order is at least
      `m` old, so are `idx + 1` records. */
  lemma {:induction false} ThresholdCountAtLeast(venvs: seq<Record>, idx: int, m: int)
    requires 0 <= idx < |venvs|
    requires AgeOf(ThresholdRecord(venvs, idx)) >= m
    ensures CountAgeAtLeast(venvs, m) >= idx + 1
  {
    var sorted := OldestFirst(venvs);
    AgeOrderAround(venvs, idx);
    CountSplit(sorted, idx + 1, m);
    CountSort(venvs, AgeDays, true, m);
  }

  /** When the record at index `idx - 1` of the oldest-first order is at
      least `m` old and the one at `idx` is younger, exactly `idx` are. */
  lemma {:induction false} ThresholdCountExact(venvs: seq<Record>, idx: int, m: int)
    requires 0 < idx < |venvs|
    requires AgeOf(ThresholdRecord(venvs, idx - 1)) >= m
    requires AgeOf(ThresholdRecord(venvs, idx)) < m
    ensures CountAgeAtLeast(venvs, m) == idx
  {
    var sorted := OldestFirst(venvs);
    AgeOrderAround(venvs, idx - 1);
    AgeOrderAround(venvs, idx);
    CountSplit(sorted, idx, m);
    CountSort(venvs, AgeDays, true, m);
  }

  /** When every record from index `k` on is younger than `m`, at most `k`
      records are at least `m` old. */
  lemma {:induction false} CountTailBelow(s: seq<Record>, k: nat, m: int)
    requires k <= |s|
    requires forall i :: k <= i < |s| ==> AgeOf(s[i]) < m
    ensures CountAgeAtLeast(s, m) <= k
    decreases |s|
  {
    if s != [] {
      if k > 0 {
        CountTailBelow(s[1..], k - 1, m);
      } else {
        CountTailBelow(s[1..], 0, m);
      }
    }
  }

  /** When the record at index `idx` of the oldest-first order is younger
      than `m`, at most `idx` records are at least `m` old. */
  lemma {:induction false} ThresholdCountAtMost(venvs: seq<Record>, idx: int, m: int)
    requires 0 <= idx < |venvs|
    requires AgeOf(ThresholdRecord(venvs, idx)) < m
    ensures CountAgeAtLeast(venvs, m) <= idx
  {
    AgeOrderAround(venvs, idx);
    CountTailBelow(OldestFirst(venvs), idx, m);
    CountSort(venvs, AgeDays, true, m);
  }

  /** When the record at index `idx` of the oldest-first order is `a`
      tenths of a day old, at least `idx + 1` records are as old as its
      whole days and at most `idx` are a day older. */
  lemma {:induction false} ThresholdPinsCount(venvs: seq<Record>, idx: int, a: int)
    requires 0 <= idx < |venvs|
    requires ThresholdRecord(venvs, idx).ageTenths == Some(a) && a >= 0
    ensures CountAgeAtLeast(venvs, 10 * (a / 10)) >= idx + 1
    ensures CountAgeAtLeast(venvs, 10 * (a / 10 + 1)) <= idx
  {
    ThresholdCountAtLeast(venvs, idx, 10 * (a / 10));
    ThresholdCountAtMost(venvs, idx, 10 * (a / 10 + 1));
  }

  /** A threshold of at least seven days, in tenths, read back as whole days. */
  lemma {:induction false} WholeDaysBelow(a: int)
    requires a >= 70
    ensures 10 * Max(7, TruncTenths(a)) <= a
  {
  }

  /** When the record setting the threshold is at least seven days old,
      the returned `min_age_days` is its age in whole days, truncated; at
      least `target + 1` records are that old (one more than the target),
      and at most `target` are a day older. */
  lemma {:induction false} AutoAdjustOvershoots(venvs: seq<Record>, target: int)
    requires 0 < target < |venvs|
    requires ThresholdRecord(venvs, target).ageTenths.Some?
    requires ThresholdRecord(venvs, target).ageTenths.value >= 70
    ensures 10 * AutoAdjustCriteria(venvs, target).minAgeDays.value <= ThresholdRecord(venvs, target).ageTenths.value
    ensures ThresholdRecord(venvs, target).ageTenths.value < 10 * (AutoAdjustCriteria(venvs, target).minAgeDays.value + 1)
    ensures CountAgeAtLeast(venvs, 10 * AutoAdjustCriteria(venvs, target).minAgeDays.value) >= target + 1
    ensures CountAgeAtLeast(venvs, 10 * (AutoAdjustCriteria(venvs, target).minAgeDays.value + 1)) <= target
  {
    var a := ThresholdRecord(venvs, target).ageTenths.value;
    AutoAdjustWholeDays(venvs, target);
    ThresholdPinsCount(venvs, target, a);
  }

  /** For a threshold record at least seven days old, `min_age_days` is its
      age in whole days. */
  lemma {:induction false} AutoAdjustWholeDays(venvs: seq<Record>, target: int)
    requires 0 < target < |venvs|
    requires ThresholdRecord(venvs, target).ageTenths.Some?
    requires ThresholdRecord(venvs, target).ageTenths.value >= 70
    ensures AutoAdjustCriteria(venvs, target).minAgeDays == Some(ThresholdRecord(venvs, target).ageTenths.value / 10)
  {
    assert Min(target, |venvs| - 1) == target;
  }

  /** When the record setting the threshold has no age, or is younger than
      seven days, the floor of seven days decides. */
  lemma {:induction false} AutoAdjustYoungThreshold(venvs: seq<Record>, target: int)
    requires 0 < target < |venvs|
    requires ThresholdRecord(venvs, target).ageTenths.None? || ThresholdRecord(venvs, target).ageTenths.value < 70
    ensures AutoAdjustCriteria(venvs, target).minAgeDays == Some(7)
  {
    assert Min(target, |venvs| - 1) == target;
  }

  /** The records' ages, in tenths of a day, are `ages`. */
  predicate HasAges(s: seq<Record>, ages: seq<int>) {
    |s| == |ages| && forall i :: 0 <= i < |s| ==> s[i].ageTenths == Some(ages[i])
  }

  /** Ages 5, 10, 15, 20, 30, 60 and 90 days, in tenths. */
  const SevenAges: seq<int> := [50, 100, 150, 200, 300, 600, 900]

  function Reverse<T>(s: seq<T>): (r: seq<T>)
    ensures |r| == |s| && forall i :: 0 <= i < |s| ==> r[i] == s[|s| - 1 - i]
  {
    if s == [] then [] else Reverse(s[1..]) + [s[0]]
  }

  lemma {:induction false} InsertLast(x: Record, t: seq<Record>, f: SortField, desc: bool)
    requires forall i :: 0 <= i < |t| ==> Before(t[i], x, f, desc)
    ensures Insert(x, t, f, desc) == t + [x]
    decreases |t|
  {
    if t != [] {
      InsertLast(x, t[1..], f, desc);
      assert t == [t[0]] + t[1..];
    }
  }

  /** Records given youngest-key-first come out reversed. */
  lemma {:induction false} StableSortReverses(s: seq<Record>, f: SortField, desc: bool)
    requires forall i, j :: 0 <= i < j < |s| ==> Before(s[j], s[i], f, desc)
    ensures StableSort(s, f, desc) == Reverse(s)
    decreases |s|
  {
    if s != [] {
      StableSortReverses(s[1..], f, desc);
      InsertLast(s[0], Reverse(s[1..]), f, desc);
    }
  }

  lemma {:induction false} SevenAgesSorted(s: seq<Record>)
    requires HasAges(s, SevenAges)
    ensures OldestFirst(s) == Reverse(s)
  {
    assert forall i :: 0 <= i < |s| ==> AgeOf(s[i]) == SevenAges[i];
    forall i, j | 0 <= i < j < |s|
      ensures Before(s[j], s[i], AgeDays, true)
    {
      BeforeByAge(s[j], s[i]);
    }
    StableSortReverses(s, AgeDays, true);
  }

  /** As written, a target of 3 over these ages gives 20 days, which four
      records meet. */
  lemma {:induction false} AutoAdjustSevenAges(s: seq<Record>)
    requires HasAges(s, SevenAges)
    ensures AutoAdjustCriteria(s, 3).minAgeDays == Some(20)
    ensures CountAgeAtLeast(s, 200) == 4
  {
    SevenAgesSorted(s);
    assert |s| == 7 && s[3].ageTenths == Some(200) && s[2].ageTenths == Some(150);
    assert ThresholdRecord(s, 3) == s[3];
    assert ThresholdRecord(s, 4) == s[2];
    assert TruncTenths(200) == 20;
    assert AutoAdjustCriteria(s, 3).minAgeDays == Some(Max(7, TruncTenths(200)));
    ThresholdCountExact(s, 4, 200);
  }

  /** The threshold read at index `target - 1`, which `target` records meet. */
  function AutoAdjustCriteriaIntended(venvs: seq<Record>, target: int): (c: Criteria)
    ensures c.unusedOnly == Some(true) && c.minSizeMb.None?
    ensures c.minAgeDays.Some? && c.minAgeDays.value >= 7
    ensures venvs == [] || target <= 0 || target >= |venvs| ==> c.minAgeDays == Some(7)
  {
    if venvs == [] || target <= 0 || target >= |venvs| then Criteria(Some(7), Some(true), None)
    else
      var t := ThresholdRecord(venvs, target - 1).ageTenths.GetOr(70);
      Criteria(Some(Max(7, TruncTenths(t))), Some(true), None)
  }

  /** With the threshold at index `target - 1`, at least `target` records
      meet it, exactly `target` when the next record is younger than the
      threshold, and fewer than `target` are a day older. */
  lemma {:induction false} AutoAdjustIntendedMeetsTarget(venvs: seq<Record>, target: int)
    requires 0 < target < |venvs|
    requires ThresholdRecord(venvs, target - 1).ageTenths.Some?
    requires ThresholdRecord(venvs, target - 1).ageTenths.value >= 70
    ensures CountAgeAtLeast(venvs, 10 * AutoAdjustCriteriaIntended(venvs, target).minAgeDays.value) >= target
    ensures AgeOf(ThresholdRecord(venvs, target)) < 10 * AutoAdjustCriteriaIntended(venvs, target).minAgeDays.value ==>
      CountAgeAtLeast(venvs, 10 * AutoAdjustCriteriaIntended(venvs, target).minAgeDays.value) == target
    ensures CountAgeAtLeast(venvs, 10 * (AutoAdjustCriteriaIntended(venvs, target).minAgeDays.value + 1)) <= target - 1
  {
    var a := ThresholdRecord(venvs, target - 1).ageTenths.value;
    AutoAdjustIntendedWholeDays(venvs, target);
    ThresholdPinsCount(venvs, target - 1, a);
    ThresholdExactBelow(venvs, target, a);
  }

  /** When the record at index `idx - 1` of the oldest-first order is `a`
      tenths of a day old and the next one is younger than its whole days,
      exactly `idx` records are that old. */
  lemma {:induction false} ThresholdExactBelow(venvs: seq<Record>, idx: int, a: int)
    requires 0 < idx < |venvs|
    requires ThresholdRecord(venvs, idx - 1).ageTenths == Some(a) && a >= 0
    ensures AgeOf(ThresholdRecord(venvs, idx)) < 10 * (a / 10) ==> CountAgeAtLeast(venvs, 10 * (a / 10)) == idx
  {
    if AgeOf(ThresholdRecord(venvs, idx)) < 10 * (a / 10) {
      ThresholdCountExact(venvs, idx, 10 * (a / 10));
    }
  }

  /** For a threshold record at least seven days old, the corrected
      `min_age_days` is its age in whole days. */
  lemma {:induction false} AutoAdjustIntendedWholeDays(venvs: seq<Record>, target: int)
    requires 0 < target < |venvs|
    requires ThresholdRecord(venvs, target - 1).ageTenths.Some?
    requires ThresholdRecord(venvs, target - 1).ageTenths.value >= 70
    ensures AutoAdjustCriteriaIntended(venvs, target).minAgeDays == Some(ThresholdRecord(venvs, target - 1).ageTenths.value / 10)
  {
  }

  /** With the intended index, the same ages give 30 days, which exactly
      three records meet. */
  lemma {:induction false} AutoAdjustIntendedSevenAges(s: seq<Record>)
    requires HasAges(s, SevenAges)
    ensures AutoAdjustCriteriaIntended(s, 3).minAgeDays == Some(30)
    ensures CountAgeAtLeast(s, 300) == 3
  {
    SevenAgesSorted(s);
    assert |s| == 7 && s[4].ageTenths == Some(300) && s[3].ageTenths == Some(200);
    assert ThresholdRecord(s, 2) == s[4];
    assert ThresholdRecord(s, 3) == s[3];
    assert TruncTenths(300) == 30;
    assert AutoAdjustCriteriaIntended(s, 3).minAgeDays == Some(Max(7, TruncTenths(300)));
    ThresholdCountExact(s, 3, 300);
  }
}
