/**
  The per-factory override table of itkObjectFactoryBase (its m_OverrideMap), as a value.

  The source keeps a std::multimap from base class name to OverrideInformation.  A multimap
  iterates in key order, and an insert places the new entry after every entry whose key is not
  greater than its own, so entries with equal keys stay in insertion order.  The table is
  modelled as the sequence of entries in iteration order; `Sorted` is the multimap's ordering
  invariant and `LowerBound`/`UpperBound` are the two ends of a key's equal range.
 */
module OverrideTable {
  import opened Wrappers

  /** An object handed back by a creation function; only its identity matters here. */
  datatype Instance = Instance(id: nat)

  /**
    One multimap entry: the key (the base class name) with the OverrideInformation stored
    under it.  `creates` is what invoking the entry's creation function yields (None for a
    null pointer).
   */
  datatype Override = Override(
    className: string,
    overrideWithName: string,
    description: string,
    enabled: bool,
    creates: Option<Instance>)

  /** std::less<std::string>: lexicographic order, a proper prefix before its extensions. */
  predicate KeyLess(a: string, b: string)
  {
    |b| > 0 && (|a| == 0 || a[0] < b[0] || (a[0] == b[0] && KeyLess(a[1..], b[1..])))
  }

  lemma {:induction false} KeyLessIrreflexive(a: string)
    ensures !KeyLess(a, a)
  {
    if |a| > 0 {
      KeyLessIrreflexive(a[1..]);
    }
  }

  lemma {:induction false} KeyLessTransitive(a: string, b: string, c: string)
    requires KeyLess(a, b) && KeyLess(b, c)
    ensures KeyLess(a, c)
  {
    if |a| > 0 && a[0] == b[0] && b[0] == c[0] {
      KeyLessTransitive(a[1..], b[1..], c[1..]);
    }
  }

  lemma {:induction false} KeyLessTotal(a: string, b: string)
    ensures a == b || KeyLess(a, b) || KeyLess(b, a)
  {
    if |a| > 0 && |b| > 0 && a[0] == b[0] {
      KeyLessTotal(a[1..], b[1..]);
      if a[1..] == b[1..] {
        assert a == [a[0]] + a[1..] && b == [b[0]] + b[1..];
      }
    }
  }

  lemma KeyLessAsymmetric(a: string, b: string)
    requires KeyLess(a, b)
    ensures !KeyLess(b, a)
  {
    if KeyLess(b, a) {
      KeyLessTransitive(a, b, a);
      KeyLessIrreflexive(a);
    }
  }

  /** `a` is at most `b`: a key not after `b` in iteration order. */
  lemma KeyLeqLessTransitive(a: string, b: string, c: string)
    requires !KeyLess(b, a) && KeyLess(b, c)
    ensures KeyLess(a, c)
  {
    KeyLessTotal(a, b);
    if a != b {
      KeyLessTransitive(a, b, c);
    }
  }

  lemma KeyLessLeqTransitive(a: string, b: string, c: string)
    requires KeyLess(a, b) && !KeyLess(c, b)
    ensures KeyLess(a, c)
  {
    KeyLessTotal(b, c);
    if b != c {
      KeyLessTransitive(a, b, c);
    }
  }

  /** A key not after `b` and a key not after that are not after `b` either. */
  lemma KeyLeqTransitive(a: string, b: string, c: string)
    requires !KeyLess(b, a) && !KeyLess(c, b)
    ensures !KeyLess(c, a)
  {
    if KeyLess(c, a) {
      KeyLessLeqTransitive(c, a, b);
    }
  }

  /** The multimap's ordering invariant: no entry's key is less than its predecessor's. */
  ghost predicate Sorted(t: seq<Override>)
    decreases |t|
  {
    |t| <= 1 || (Sorted(t[..|t| - 1]) && !KeyLess(t[|t| - 1].className, t[|t| - 2].className))
  }

  /** The same invariant stated on every pair of positions: keys never decrease along the iteration order. */
  ghost predicate Ordered(t: seq<Override>)
  {
    forall i, j :: 0 <= i < j < |t| ==> !KeyLess(t[j].className, t[i].className)
  }

  lemma {:induction false} SortedOrdered(t: seq<Override>)
    ensures Sorted(t) <==> Ordered(t)
    decreases |t|
  {
    if |t| >= 2 {
      var front := t[..|t| - 1];
      SortedOrdered(front);
      assert forall i :: 0 <= i < |front| ==> front[i] == t[i];
      if Sorted(t) {
        forall i, j | 0 <= i < j < |t|
          ensures !KeyLess(t[j].className, t[i].className)
        {
          if j == |t| - 1 && i < |t| - 2 {
            KeyLeqTransitive(t[i].className, t[|t| - 2].className, t[j].className);
          }
        }
      }
    }
  }

  /** multimap::lower_bound: the position of the first entry whose key is not less than `k`. */
  function LowerBound(t: seq<Override>, k: string): (lo: nat)
    ensures lo <= |t|
  {
    if |t| == 0 || !KeyLess(t[0].className, k) then 0 else 1 + LowerBound(t[1..], k)
  }

  /** multimap::upper_bound: the position of the first entry whose key is greater than `k`. */
  function UpperBound(t: seq<Override>, k: string): (hi: nat)
    ensures hi <= |t|
  {
    if |t| == 0 || KeyLess(k, t[0].className) then 0 else 1 + UpperBound(t[1..], k)
  }

  /** In a sorted table every entry before the lower bound has a smaller key and none after it does. */
  lemma {:induction false} LowerBoundSplits(t: seq<Override>, k: string)
    requires Ordered(t)
    ensures forall i :: 0 <= i < LowerBound(t, k) ==> KeyLess(t[i].className, k)
    ensures forall i :: LowerBound(t, k) <= i < |t| ==> !KeyLess(t[i].className, k)
  {
    if |t| > 0 {
      if !KeyLess(t[0].className, k) {
        forall i | 0 <= i < |t|
          ensures !KeyLess(t[i].className, k)
        {
          if KeyLess(t[i].className, k) {
            KeyLeqLessTransitive(t[0].className, t[i].className, k);
          }
        }
      } else {
        LowerBoundSplits(t[1..], k);
        assert forall i :: 1 <= i < |t| ==> t[i] == t[1..][i - 1];
      }
    }
  }

  /** In a sorted table every entry before the upper bound has a key at most `k` and every entry after it a greater key. */
  lemma {:induction false} UpperBoundSplits(t: seq<Override>, k: string)
    requires Ordered(t)
    ensures forall i :: 0 <= i < UpperBound(t, k) ==> !KeyLess(k, t[i].className)
    ensures forall i :: UpperBound(t, k) <= i < |t| ==> KeyLess(k, t[i].className)
  {
    if |t| > 0 {
      if KeyLess(k, t[0].className) {
        forall i | 0 <= i < |t|
          ensures KeyLess(k, t[i].className)
        {
          if i > 0 {
            KeyLessLeqTransitive(k, t[0].className, t[i].className);
          }
        }
      } else {
        UpperBoundSplits(t[1..], k);
        assert forall i :: 1 <= i < |t| ==> t[i] == t[1..][i - 1];
      }
    }
  }

  /** The equal range [lower_bound, upper_bound) holds exactly the entries whose key is `k`. */
  lemma EqualRange(t: seq<Override>, k: string)
    requires Sorted(t)
    ensures LowerBound(t, k) <= UpperBound(t, k)
    ensures forall i :: 0 <= i < |t| ==>
              (LowerBound(t, k) <= i < UpperBound(t, k) <==> t[i].className == k)
  {
    SortedOrdered(t);
    LowerBoundSplits(t, k);
    UpperBoundSplits(t, k);
    var lo, hi := LowerBound(t, k), UpperBound(t, k);
    if hi < lo {
      KeyLessAsymmetric(t[hi].className, k);
    }
    forall i | 0 <= i < |t|
      ensures lo <= i < hi <==> t[i].className == k
    {
      KeyLessIrreflexive(k);
      KeyLessTotal(t[i].className, k);
    }
  }

  /** The entries with key `k`, in iteration order. */
  function KeyRun(t: seq<Override>, k: string): seq<Override>
  {
    if t == [] then []
    else KeyRun(t[..|t| - 1], k) + (if t[|t| - 1].className == k then [t[|t| - 1]] else [])
  }

  lemma {:induction false} KeyRunAppend(a: seq<Override>, b: seq<Override>, k: string)
    ensures KeyRun(a + b, k) == KeyRun(a, k) + KeyRun(b, k)
  {
    if b != [] {
      assert (a + b)[..|a + b| - 1] == a + b[..|b| - 1];
      KeyRunAppend(a, b[..|b| - 1], k);
    } else {
      assert a + b == a;
    }
  }

  lemma {:induction false} KeyRunNone(t: seq<Override>, k: string)
    requires forall i :: 0 <= i < |t| ==> t[i].className != k
    ensures KeyRun(t, k) == []
  {
    if t != [] {
      KeyRunNone(t[..|t| - 1], k);
    }
  }

  lemma {:induction false} KeyRunAll(t: seq<Override>, k: string)
    requires forall i :: 0 <= i < |t| ==> t[i].className == k
    ensures KeyRun(t, k) == t
  {
    if t != [] {
      KeyRunAll(t[..|t| - 1], k);
    }
  }

  /** In a sorted table the entries with key `k` are contiguous: they are the equal range. */
  lemma RunIsEqualRange(t: seq<Override>, k: string)
    requires Sorted(t)
    ensures LowerBound(t, k) <= UpperBound(t, k) && KeyRun(t, k) == t[LowerBound(t, k)..UpperBound(t, k)]
  {
    EqualRange(t, k);
    RunOfRange(t, k, LowerBound(t, k), UpperBound(t, k));
  }

  /** If exactly the entries in [lo, hi) have key `k`, they are the entries with key `k`. */
  lemma {:induction false} RunOfRange(t: seq<Override>, k: string, lo: nat, hi: nat)
    requires lo <= hi <= |t|
    requires forall i :: 0 <= i < |t| ==> (lo <= i < hi <==> t[i].className == k)
    ensures KeyRun(t, k) == t[lo..hi]
  {
    if t != [] {
      var front := t[..|t| - 1];
      assert forall i :: 0 <= i < |front| ==> front[i] == t[i];
      if hi == |t| && lo < hi {
        RunOfRange(front, k, lo, hi - 1);
        assert t[lo..hi] == front[lo..hi - 1] + [t[|t| - 1]];
      } else if hi < |t| {
        RunOfRange(front, k, lo, hi);
        assert t[lo..hi] == front[lo..hi];
      } else {
        RunOfRange(front, k, |front|, |front|);
      }
    }
  }

  /** multimap::insert: the new entry goes after every entry whose key is not greater than its own. */
  function Insert(t: seq<Override>, o: Override): (r: seq<Override>)
    ensures |r| == |t| + 1
  {
    var p := UpperBound(t, o.className);
    t[..p] + [o] + t[p..]
  }

  lemma InsertSorted(t: seq<Override>, o: Override)
    requires Sorted(t)
    ensures Sorted(Insert(t, o))
  {
    var p := UpperBound(t, o.className);
    SortedOrdered(t);
    UpperBoundSplits(t, o.className);
    var r := Insert(t, o);
    assert forall i :: 0 <= i < |r| ==> r[i] == if i < p then t[i] else if i == p then o else t[i - 1];
    forall i, j | 0 <= i < j < |r|
      ensures !KeyLess(r[j].className, r[i].className)
    {
      if i == p {
        KeyLessAsymmetric(o.className, r[j].className);
      }
    }
    SortedOrdered(r);
  }

  /** Exactly one entry is added: the given one. */
  lemma InsertContents(t: seq<Override>, o: Override)
    ensures multiset(Insert(t, o)) == multiset(t) + multiset{o}
  {
    var p := UpperBound(t, o.className);
    assert t == t[..p] + t[p..];
  }

  /** Among entries with the new key the new entry comes last; every other key's entries are untouched. */
  lemma InsertRun(t: seq<Override>, o: Override, k: string)
    requires Sorted(t)
    ensures KeyRun(Insert(t, o), k) == KeyRun(t, k) + (if k == o.className then [o] else [])
  {
    SortedOrdered(t);
    UpperBoundSplits(t, o.className);
    KeyLessIrreflexive(o.className);
    InsertRunAfterBound(t, o, k);
  }

  lemma InsertRunAfterBound(t: seq<Override>, o: Override, k: string)
    requires forall i :: UpperBound(t, o.className) <= i < |t| ==> t[i].className != o.className
    ensures KeyRun(Insert(t, o), k) == KeyRun(t, k) + (if k == o.className then [o] else [])
  {
    var p := UpperBound(t, o.className);
    assert t == t[..p] + t[p..];
    KeyRunSplice(t[..p], t[p..], o, k);
  }

  /** Splicing `o` in front of a suffix free of its key adds `o` at the end of its key's run only. */
  lemma KeyRunSplice(a: seq<Override>, b: seq<Override>, o: Override, k: string)
    requires forall i :: 0 <= i < |b| ==> b[i].className != o.className
    ensures KeyRun(a + [o] + b, k) == KeyRun(a + b, k) + (if k == o.className then [o] else [])
  {
    KeyRunAppend(a + [o], b, k);
    KeyRunAppend(a, [o], k);
    KeyRunAppend(a, b, k);
    assert KeyRun([o], k) == (if k == o.className then [o] else []) by {
      assert [o][..0] == [];
    }
    if k == o.className {
      KeyRunNone(b, k);
    }
  }

  /** The table a factory holds after registering `rs` in order, starting from an empty table. */
  function Build(rs: seq<Override>): (t: seq<Override>)
    ensures |t| == |rs|
  {
    if rs == [] then [] else Insert(Build(rs[..|rs| - 1]), rs[|rs| - 1])
  }

  /** Registering overrides one by one keeps the table sorted. */
  lemma {:induction false} BuildSorted(rs: seq<Override>)
    ensures Sorted(Build(rs))
  {
    if rs != [] {
      BuildSorted(rs[..|rs| - 1]);
      InsertSorted(Build(rs[..|rs| - 1]), rs[|rs| - 1]);
    }
  }

  /** The table holds exactly the registered overrides, each as often as it was registered. */
  lemma {:induction false} BuildContents(rs: seq<Override>)
    ensures multiset(Build(rs)) == multiset(rs)
  {
    if rs != [] {
      var front, o := rs[..|rs| - 1], rs[|rs| - 1];
      BuildContents(front);
      InsertContents(Build(front), o);
      assert rs == front + [o];
    }
  }

  /** The overrides registered for one key keep their registration order. */
  lemma {:induction false} BuildRuns(rs: seq<Override>, k: string)
    ensures KeyRun(Build(rs), k) == KeyRun(rs, k)
  {
    if rs != [] {
      var front, o := rs[..|rs| - 1], rs[|rs| - 1];
      BuildRuns(front, k);
      BuildSorted(front);
      InsertRun(Build(front), o, k);
    }
  }

  /** Overrides::CreateObject's lookup: the creation result of the entry multimap::find reaches. */
  function Lookup(t: seq<Override>, c: string): Option<Instance>
  {
    var lo := LowerBound(t, c);
    if lo < |t| && t[lo].className == c then t[lo].creates else None
  }

  /** The lookup runs the creation function of the first entry with key `c`, and yields None when there is none. */
  lemma LookupFirstOfRun(t: seq<Override>, c: string)
    requires Sorted(t)
    ensures Lookup(t, c) == if KeyRun(t, c) == [] then None else KeyRun(t, c)[0].creates
  {
    RunIsEqualRange(t, c);
    EqualRange(t, c);
  }

  /** The entries SetEnableFlag and GetEnableFlag address: key `c` and override name `s`. */
  predicate Matches(o: Override, c: string, s: string)
  {
    o.className == c && o.overrideWithName == s
  }

  /** The position of the first entry with key `c` and override name `s`, if there is one. */
  function FindOverride(t: seq<Override>, c: string, s: string): (r: Option<nat>)
    ensures r.Some? ==> r.value < |t| && Matches(t[r.value], c, s)
                        && forall j :: 0 <= j < r.value ==> !Matches(t[j], c, s)
    ensures r.None? ==> forall j :: 0 <= j < |t| ==> !Matches(t[j], c, s)
  {
    if t == [] then None
    else if Matches(t[0], c, s) then Some(0)
    else match FindOverride(t[1..], c, s)
         case Some(i) => Some(i + 1)
         case None => None
  }

  /** The flag GetEnableFlag reports: the first matching entry's flag, false when nothing matches. */
  function EnableFlagOf(t: seq<Override>, c: string, s: string): bool
  {
    match FindOverride(t, c, s)
    case Some(i) => t[i].enabled
    case None => false
  }

  /** The table after SetEnableFlag(b, c, s). */
  function WithEnableFlag(t: seq<Override>, b: bool, c: string, s: string): seq<Override>
  {
    seq(|t|, i requires 0 <= i < |t| => if Matches(t[i], c, s) then t[i].(enabled := b) else t[i])
  }

  /** The table after Disable(c). */
  function Disabled(t: seq<Override>, c: string): seq<Override>
  {
    seq(|t|, i requires 0 <= i < |t| => if t[i].className == c then t[i].(enabled := false) else t[i])
  }

  /** `u` is `t` with at most the enable flags changed. */
  ghost predicate SameExceptFlags(t: seq<Override>, u: seq<Override>)
  {
    |t| == |u| && forall i :: 0 <= i < |t| ==> t[i].(enabled := u[i].enabled) == u[i]
  }

  /** Changing flags leaves the order, the lookup and the search for a (key, name) pair as they were. */
  lemma FlagsIrrelevant(t: seq<Override>, u: seq<Override>, c: string, s: string)
    requires SameExceptFlags(t, u)
    ensures Sorted(t) <==> Sorted(u)
    ensures LowerBound(t, c) == LowerBound(u, c) && UpperBound(t, c) == UpperBound(u, c)
    ensures Lookup(t, c) == Lookup(u, c)
    ensures FindOverride(t, c, s) == FindOverride(u, c, s)
  {
    assert forall i :: 0 <= i < |t| ==> t[i].className == u[i].className && t[i].creates == u[i].creates
                                        && t[i].overrideWithName == u[i].overrideWithName;
    SortedOrdered(t);
    SortedOrdered(u);
    BoundsIgnoreFlags(t, u, c);
    FindIgnoresFlags(t, u, c, s);
  }

  lemma {:induction false} BoundsIgnoreFlags(t: seq<Override>, u: seq<Override>, c: string)
    requires |t| == |u| && forall i :: 0 <= i < |t| ==> t[i].className == u[i].className
    ensures LowerBound(t, c) == LowerBound(u, c) && UpperBound(t, c) == UpperBound(u, c)
  {
    if |t| > 0 {
      BoundsIgnoreFlags(t[1..], u[1..], c);
    }
  }

  lemma {:induction false} FindIgnoresFlags(t: seq<Override>, u: seq<Override>, c: string, s: string)
    requires |t| == |u|
    requires forall i :: 0 <= i < |t| ==> t[i].className == u[i].className && t[i].overrideWithName == u[i].overrideWithName
    ensures FindOverride(t, c, s) == FindOverride(u, c, s)
  {
    if |t| > 0 {
      FindIgnoresFlags(t[1..], u[1..], c, s);
    }
  }

  /** After SetEnableFlag(b, c, s), GetEnableFlag(c, s) reads back `b` if some entry matches, and false otherwise. */
  lemma EnableFlagReadBack(t: seq<Override>, b: bool, c: string, s: string)
    ensures EnableFlagOf(WithEnableFlag(t, b, c, s), c, s) == (FindOverride(t, c, s).Some? && b)
  {
    FlagsIrrelevant(t, WithEnableFlag(t, b, c, s), c, s);
  }

  /** SetEnableFlag(b, c, s) leaves the flag reported for every other (key, name) pair unchanged. */
  lemma EnableFlagOthersUnchanged(t: seq<Override>, b: bool, c: string, s: string, c': string, s': string)
    requires c' != c || s' != s
    ensures EnableFlagOf(WithEnableFlag(t, b, c, s), c', s') == EnableFlagOf(t, c', s')
  {
    FlagsIrrelevant(t, WithEnableFlag(t, b, c, s), c', s');
  }

  /** After Disable(c) every override of `c` reports false, and the other keys' flags are unchanged. */
  lemma DisableClears(t: seq<Override>, c: string, c': string, s: string)
    ensures EnableFlagOf(Disabled(t, c), c, s) == false
    ensures c' != c ==> EnableFlagOf(Disabled(t, c), c', s) == EnableFlagOf(t, c', s)
  {
    FlagsIrrelevant(t, Disabled(t, c), c, s);
    FlagsIrrelevant(t, Disabled(t, c), c', s);
  }

  /** CreateObject never consults the enable flag: disabling or re-enabling does not change what it creates. */
  lemma LookupIgnoresFlags(t: seq<Override>, b: bool, c: string, s: string, k: string)
    ensures Lookup(WithEnableFlag(t, b, c, s), k) == Lookup(t, k)
    ensures Lookup(Disabled(t, c), k) == Lookup(t, k)
  {
    FlagsIrrelevant(t, WithEnableFlag(t, b, c, s), k, s);
    FlagsIrrelevant(t, Disabled(t, c), k, s);
  }
}
