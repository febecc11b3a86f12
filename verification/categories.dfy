/** The four data-type categories whose circles make up the diagram, and the
    region keys (sets of categories) that labels belong to. */
module Categories {

  datatype Category = Numeric | Sequence | Categorical | Date

  /** Every category, in the order the circle table lists them. */
  const AllCategories: seq<Category> := [Numeric, Sequence, Categorical, Date]

  /** A region key: the set of circles a label must lie inside (it must lie
      outside every other circle). The source uses a `frozenset` of category
      names; over the fixed four categories that set is one membership flag per
      category. */
  datatype Key = Key(numeric: bool, sequence: bool, categorical: bool, date: bool)
  {
    predicate Has(c: Category)
    {
      match c
      case Numeric => numeric
      case Sequence => sequence
      case Categorical => categorical
      case Date => date
    }

    /** `len(key)` */
    function Size(): (n: nat)
      ensures n <= 4
    {
      (if numeric then 1 else 0) + (if sequence then 1 else 0)
      + (if categorical then 1 else 0) + (if date then 1 else 0)
    }
  }

  /** The key whose members are exactly `cs`: the model of `frozenset(cs)`. */
  function KeyOf(cs: set<Category>): (k: Key)
    ensures forall c :: k.Has(c) <==> c in cs
  {
    Key(Numeric in cs, Sequence in cs, Categorical in cs, Date in cs)
  }

  /** A key is determined by its members, as a frozenset is. */
  lemma KeyExtensional(a: Key, b: Key)
    requires forall c :: a.Has(c) <==> b.Has(c)
    ensures a == b
  {
    assert a.Has(Numeric) == b.Has(Numeric) && a.Has(Sequence) == b.Has(Sequence);
    assert a.Has(Categorical) == b.Has(Categorical) && a.Has(Date) == b.Has(Date);
  }

  /** The size of a key is the number of its members. */
  lemma SizeCountsMembers(cs: set<Category>)
    ensures KeyOf(cs).Size() == |cs|
  {
    var all := {Numeric, Sequence, Categorical, Date};
    AddMember(cs, {}, {Numeric}, Numeric);
    assert cs * {} == {};
    AddMember(cs, {Numeric}, {Numeric, Sequence}, Sequence);
    AddMember(cs, {Numeric, Sequence}, {Numeric, Sequence, Categorical}, Categorical);
    AddMember(cs, {Numeric, Sequence, Categorical}, {Numeric, Sequence, Categorical, Date}, Date);
    assert cs * all == cs by {
      forall x | x in cs ensures x in all {
        CategoryCases(x);
      }
    }
    assert |cs| == (if Numeric in cs then 1 else 0) + (if Sequence in cs then 1 else 0)
                   + (if Categorical in cs then 1 else 0) + (if Date in cs then 1 else 0);
  }

  lemma CategoryCases(x: Category)
    ensures x == Numeric || x == Sequence || x == Categorical || x == Date
  {
  }

  /** Widening the window `u` by one category adds that category's
      membership to the count. */
  lemma AddMember(cs: set<Category>, u: set<Category>, v: set<Category>, x: Category)
    requires x !in u && v == u + {x}
    ensures |cs * v| == |cs * u| + (if x in cs then 1 else 0)
  {
    if x in cs {
      assert cs * v == (cs * u) + {x};
    } else {
      assert cs * v == cs * u;
    }
  }

  function Name(c: Category): string
  {
    match c
    case Numeric => "Numeric"
    case Sequence => "Sequence"
    case Categorical => "Categorical"
    case Date => "Date"
  }

  /** Position of the category's name in alphabetical order. */
  function Rank(c: Category): nat
  {
    match c
    case Categorical => 0
    case Date => 1
    case Numeric => 2
    case Sequence => 3
  }

  /** Lexicographic string order, as Python compares `str` values. */
  predicate StringLess(a: string, b: string)
  {
    if |a| == 0 then |b| > 0
    else if |b| == 0 then false
    else if a[0] != b[0] then a[0] < b[0]
    else StringLess(a[1..], b[1..])
  }

  /** Comparing ranks is the same as comparing names, so a tuple of sorted
      ranks orders keys exactly as a tuple of sorted names does. */
  lemma RankAgreesWithName(a: Category, b: Category)
    ensures Rank(a) < Rank(b) <==> StringLess(Name(a), Name(b))
    ensures Rank(a) == Rank(b) <==> a == b
  {
    var na, nb := Name(a), Name(b);
    assert na[0] == "CDNS"[Rank(a)] && nb[0] == "CDNS"[Rank(b)];
    if a == b {
      assert !StringLess(na, nb) by { StringLessIrreflexive(na); }
    } else {
      assert na[0] != nb[0];
    }
  }

  lemma {:induction false} StringLessIrreflexive(s: string)
    ensures !StringLess(s, s)
  {
    if |s| > 0 {
      StringLessIrreflexive(s[1..]);
    }
  }

  /** Ranks of the members of `k` in increasing order: the model of
      `tuple(sorted(k))`. */
  function SortedRanks(k: Key): (r: seq<nat>)
    ensures forall c :: k.Has(c) <==> Rank(c) in r
    ensures forall i, j :: 0 <= i < j < |r| ==> r[i] < r[j]
    ensures |r| == k.Size()
  {
    (if k.categorical then [0] else []) + (if k.date then [1] else [])
    + (if k.numeric then [2] else []) + (if k.sequence then [3] else [])
  }

  /** Lexicographic order on sequences, as Python compares tuples. */
  predicate SeqLess(a: seq<nat>, b: seq<nat>)
  {
    if |a| == 0 then |b| > 0
    else if |b| == 0 then false
    else if a[0] != b[0] then a[0] < b[0]
    else SeqLess(a[1..], b[1..])
  }

  /** Key `a` is processed before key `b`: Python sorts keys by
      `(-len(k), tuple(sorted(k)))`, so larger regions come first and regions of
      equal size are ordered by their sorted member names. */
  predicate KeyBefore(a: Key, b: Key)
  {
    a.Size() > b.Size() || (a.Size() == b.Size() && SeqLess(SortedRanks(a), SortedRanks(b)))
  }

  lemma {:induction false} SeqLessIrreflexive(a: seq<nat>)
    ensures !SeqLess(a, a)
  {
    if |a| > 0 {
      SeqLessIrreflexive(a[1..]);
    }
  }

  lemma {:induction false} SeqLessTransitive(a: seq<nat>, b: seq<nat>, c: seq<nat>)
    requires SeqLess(a, b) && SeqLess(b, c)
    ensures SeqLess(a, c)
  {
    if |a| > 0 && |b| > 0 && |c| > 0 && a[0] == b[0] && b[0] == c[0] {
      SeqLessTransitive(a[1..], b[1..], c[1..]);
    }
  }

  lemma {:induction false} SeqLessTotal(a: seq<nat>, b: seq<nat>)
    requires a != b
    ensures SeqLess(a, b) || SeqLess(b, a)
  {
    if |a| > 0 && |b| > 0 && a[0] == b[0] {
      assert a == [a[0]] + a[1..] && b == [b[0]] + b[1..];
      SeqLessTotal(a[1..], b[1..]);
    }
  }

  lemma SortedRanksInjective(a: Key, b: Key)
    requires SortedRanks(a) == SortedRanks(b)
    ensures a == b
  {
    forall c ensures a.Has(c) <==> b.Has(c) {
      assert a.Has(c) <==> Rank(c) in SortedRanks(a);
    }
    KeyExtensional(a, b);
  }

  /** `KeyBefore` is a strict total order on keys, so sorting keys by it is
      deterministic: two distinct keys never tie. */
  lemma KeyBeforeIrreflexive(a: Key)
    ensures !KeyBefore(a, a)
  {
    SeqLessIrreflexive(SortedRanks(a));
  }

  lemma KeyBeforeTransitive(a: Key, b: Key, c: Key)
    requires KeyBefore(a, b) && KeyBefore(b, c)
    ensures KeyBefore(a, c)
  {
    if a.Size() == b.Size() == c.Size() {
      SeqLessTransitive(SortedRanks(a), SortedRanks(b), SortedRanks(c));
    }
  }

  lemma KeyBeforeTotal(a: Key, b: Key)
    requires a != b
    ensures KeyBefore(a, b) || KeyBefore(b, a)
  {
    if a.Size() == b.Size() {
      if SortedRanks(a) == SortedRanks(b) {
        SortedRanksInjective(a, b);
      }
      SeqLessTotal(SortedRanks(a), SortedRanks(b));
    }
  }

  lemma KeyBeforeAsymmetric(a: Key, b: Key)
    requires KeyBefore(a, b)
    ensures !KeyBefore(b, a)
  {
    if KeyBefore(b, a) {
      KeyBeforeTransitive(a, b, a);
      KeyBeforeIrreflexive(a);
    }
  }
}
