/**
 * Multi-key ordering of the input images (ImageSorter.cpp): per-key
 * comparators that return "b minus a", a chain of them tried in turn until
 * one differs, a fixed chain per sort mode, and the sort of the stored
 * (path, size) records.
 */
module ImageSorter {
  import opened MinMax

  /** QSize. */
  datatype Size = Size(width: int, height: int)

  /** ImageSorter::Info: an image file and its size. */
  datatype Info = Info(path: string, size: Size)

  datatype SortMode = Height | Width | Area | MaxSide

  /** The mode `sort` uses when none is given. */
  const DefaultMode: SortMode := MaxSide

  // ---------------------------------------------------------------------
  // The per-key comparators: each returns key(b) - key(a), so a negative
  // result means that a's key is the larger one and a goes first.
  // ---------------------------------------------------------------------

  function SortWidth(a: Info, b: Info): (d: int)
    ensures d < 0 <==> a.size.width > b.size.width
    ensures d == 0 <==> a.size.width == b.size.width
  {
    b.size.width - a.size.width
  }

  function SortHeight(a: Info, b: Info): (d: int)
    ensures d < 0 <==> a.size.height > b.size.height
    ensures d == 0 <==> a.size.height == b.size.height
  {
    b.size.height - a.size.height
  }

  function SortArea(a: Info, b: Info): (d: int)
    ensures d < 0 <==> a.size.width * a.size.height > b.size.width * b.size.height
    ensures d == 0 <==> a.size.width * a.size.height == b.size.width * b.size.height
  {
    b.size.width * b.size.height - a.size.width * a.size.height
  }

  function SortMax(a: Info, b: Info): (d: int)
    ensures d < 0 <==> Max(a.size.width, a.size.height) > Max(b.size.width, b.size.height)
    ensures d == 0 <==> Max(a.size.width, a.size.height) == Max(b.size.width, b.size.height)
  {
    Max(b.size.width, b.size.height) - Max(a.size.width, a.size.height)
  }

  function SortMin(a: Info, b: Info): (d: int)
    ensures d < 0 <==> Min(a.size.width, a.size.height) > Min(b.size.width, b.size.height)
    ensures d == 0 <==> Min(a.size.width, a.size.height) == Min(b.size.width, b.size.height)
  {
    Min(b.size.width, b.size.height) - Min(a.size.width, a.size.height)
  }

  /** The comparators a chain can hold. */
  datatype Criterion = ByWidth | ByHeight | ByArea | ByMax | ByMin

  function Compare(c: Criterion, a: Info, b: Info): int {
    match c
    case ByWidth => SortWidth(a, b)
    case ByHeight => SortHeight(a, b)
    case ByArea => SortArea(a, b)
    case ByMax => SortMax(a, b)
    case ByMin => SortMin(a, b)
  }

  /** The table of chains, one per sort mode: each chain compares exactly the
      mode's key tuple, most significant key first. */
  function Criteria(mode: SortMode): (cs: seq<Criterion>)
    ensures forall s :: Keys(cs, s) == KeyTuple(mode, s)
  {
    match mode
    case Height => [ByHeight, ByWidth]
    case Width => [ByWidth, ByHeight]
    case Area => [ByArea, ByHeight, ByWidth]
    case MaxSide => [ByMax, ByMin, ByHeight, ByWidth]
  }

  // ---------------------------------------------------------------------
  // _msort
  // ---------------------------------------------------------------------

  /** a goes before b under a chain: the first criterion with a non-zero
      difference decides; when all tie, a does not go first. Later criteria
      are consulted only on ties, so the chain compares the key tuples
      lexicographically, the larger key first. */
  function Before(a: Info, b: Info, cs: seq<Criterion>): (r: bool)
    ensures r <==> LexGreater(Keys(cs, a.size), Keys(cs, b.size))
    decreases |cs|
  {
    if cs == [] then false
    else
      var ka, kb := Keys(cs, a.size), Keys(cs, b.size);
      LexGreaterCons(ka, kb);
      assert Keys(cs[1..], a.size) == ka[1..] && Keys(cs[1..], b.size) == kb[1..];
      if Compare(cs[0], a, b) != 0 then Compare(cs[0], a, b) < 0
      else Before(a, b, cs[1..])
  }

  /** ImageSorter::_msort: walks the chain and stops at the first non-zero difference. */
  method MSort(a: Info, b: Info, criteria: seq<Criterion>) returns (less: bool)
    ensures less == Before(a, b, criteria)
  {
    var n := 0;
    while n < |criteria|
      invariant 0 <= n <= |criteria|
      invariant Before(a, b, criteria) == Before(a, b, criteria[n..])
    {
      var diff := Compare(criteria[n], a, b);
      if diff != 0 {
        return diff < 0;
      }
      n := n + 1;
    }
    return false;
  }

  /** The comparator a sort mode stands for (_sMultiSorters[mode]): its key
      tuple compared lexicographically, larger first. HEIGHT compares
      (height, width), WIDTH (width, height), AREA (width * height, height,
      width) and MAXSIDE (max side, min side, height, width). */
  function Less(mode: SortMode, a: Info, b: Info): (r: bool)
    ensures r <==> LexGreater(KeyTuple(mode, a.size), KeyTuple(mode, b.size))
  {
    Before(a, b, Criteria(mode))
  }

  // ---------------------------------------------------------------------
  // The chain is a lexicographic comparison, descending on every key
  // ---------------------------------------------------------------------

  /** The key each criterion compares. */
  function Key(c: Criterion, s: Size): int {
    match c
    case ByWidth => s.width
    case ByHeight => s.height
    case ByArea => s.width * s.height
    case ByMax => Max(s.width, s.height)
    case ByMin => Min(s.width, s.height)
  }

  /** The keys a chain compares, in chain order. */
  function Keys(cs: seq<Criterion>, s: Size): seq<int> {
    seq(|cs|, i requires 0 <= i < |cs| => Key(cs[i], s))
  }

  /** The keys of each mode, most significant first. */
  function KeyTuple(mode: SortMode, s: Size): seq<int> {
    match mode
    case Height => [s.height, s.width]
    case Width => [s.width, s.height]
    case Area => [s.width * s.height, s.height, s.width]
    case MaxSide => [Max(s.width, s.height), Min(s.width, s.height), s.height, s.width]
  }

  /** Lexicographic "greater than" on key tuples of equal length. */
  predicate LexGreater(xs: seq<int>, ys: seq<int>)
    requires |xs| == |ys|
  {
    exists k :: 0 <= k < |xs| && xs[..k] == ys[..k] && xs[k] > ys[k]
  }

  /** Lexicographic comparison decides at the head, or on the tails when the
      heads tie. */
  lemma LexGreaterCons(xs: seq<int>, ys: seq<int>)
    requires |xs| == |ys| && 0 < |xs|
    ensures LexGreater(xs, ys) <==> xs[0] > ys[0] || (xs[0] == ys[0] && LexGreater(xs[1..], ys[1..]))
  {
    if xs[0] == ys[0] && LexGreater(xs[1..], ys[1..]) {
      var k :| 0 <= k < |xs| - 1 && xs[1..][..k] == ys[1..][..k] && xs[1..][k] > ys[1..][k];
      assert xs[..k + 1] == [xs[0]] + xs[1..][..k] && ys[..k + 1] == [ys[0]] + ys[1..][..k];
    }
    if LexGreater(xs, ys) && xs[0] <= ys[0] {
      var k :| 0 <= k < |xs| && xs[..k] == ys[..k] && xs[k] > ys[k];
      assert k != 0;
      assert xs[..k][0] == xs[0] && ys[..k][0] == ys[0];
      assert xs[1..][..k - 1] == xs[..k][1..] && ys[1..][..k - 1] == ys[..k][1..];
    }
    if xs[0] > ys[0] {
      assert xs[..0] == ys[..0];
    }
  }

  // ---------------------------------------------------------------------
  // Every chain is a strict weak order, as std::sort requires
  // ---------------------------------------------------------------------

  /** Images of the same size tie on every criterion: neither goes first. */
  lemma {:induction false} SameSizeTie(a: Info, b: Info, cs: seq<Criterion>)
    requires a.size == b.size
    ensures !Before(a, b, cs) && !Before(b, a, cs)
    decreases |cs|
  {
    if cs != [] {
      SameSizeTie(a, b, cs[1..]);
    }
  }

  /** _msort(a, a) is false. */
  lemma Irreflexive(a: Info, cs: seq<Criterion>)
    ensures !Before(a, a, cs)
  {
    SameSizeTie(a, a, cs);
  }

  /** _msort(a, b) and _msort(b, a) are never both true. */
  lemma {:induction false} Asymmetric(a: Info, b: Info, cs: seq<Criterion>)
    ensures !(Before(a, b, cs) && Before(b, a, cs))
    decreases |cs|
  {
    if cs != [] {
      Asymmetric(a, b, cs[1..]);
    }
  }

  lemma {:induction false} Transitive(a: Info, b: Info, c: Info, cs: seq<Criterion>)
    requires Before(a, b, cs) && Before(b, c, cs)
    ensures Before(a, c, cs)
    decreases |cs|
  {
    if Compare(cs[0], a, b) == 0 && Compare(cs[0], b, c) == 0 {
      Transitive(a, b, c, cs[1..]);
    }
  }

  /** "Does not go after" is transitive too, so ties are an equivalence
      and the chain is a strict weak order. */
  lemma {:induction false} NotBeforeTransitive(a: Info, b: Info, c: Info, cs: seq<Criterion>)
    requires !Before(b, a, cs) && !Before(c, b, cs)
    ensures !Before(c, a, cs)
    decreases |cs|
  {
    if cs != [] && Compare(cs[0], a, b) == 0 && Compare(cs[0], b, c) == 0 {
      NotBeforeTransitive(a, b, c, cs[1..]);
    }
  }

  // ---------------------------------------------------------------------
  // ImageSorter::sort
  // ---------------------------------------------------------------------

  /** No later record goes strictly before an earlier one. */
  ghost predicate Sorted(s: seq<Info>, cs: seq<Criterion>) {
    forall i, j {:trigger Before(s[j], s[i], cs)} :: 0 <= i < j < |s| ==> !Before(s[j], s[i], cs)
  }

  function Paths(s: seq<Info>): (ps: seq<string>)
    ensures |ps| == |s|
    ensures forall i :: 0 <= i < |s| ==> ps[i] == s[i].path
  {
    if s == [] then [] else Paths(s[..|s| - 1]) + [s[|s| - 1].path]
  }

  /** Reordering the records reorders their paths the same way: one path
      per record, and a permutation of the stored paths. */
  lemma {:induction false} PathsPermutation(s: seq<Info>, t: seq<Info>)
    requires multiset(s) == multiset(t)
    ensures multiset(Paths(s)) == multiset(Paths(t))
    decreases |s|
  {
    if s != [] {
      var x := s[|s| - 1];
      assert x in multiset(t);
      var k :| 0 <= k < |t| && t[k] == x;
      var s', t' := s[..|s| - 1], t[..k] + t[k + 1..];
      assert s == s' + [x];
      assert t == t[..k] + [x] + t[k + 1..];
      assert multiset(t) == multiset(t[..k]) + multiset{x} + multiset(t[k + 1..]);
      assert multiset(t') == multiset(t[..k]) + multiset(t[k + 1..]);
      assert multiset(s) == multiset(s') + multiset{x};
      assert multiset(s') == multiset(s) - multiset{x};
      assert multiset(s') == multiset(t');
      PathsPermutation(s', t');
      PathsOfConcat(s', [x]);
      PathsOfConcat(t[..k], [x]);
      PathsOfConcat(t[..k] + [x], t[k + 1..]);
      PathsOfConcat(t[..k], t[k + 1..]);
    } else {
      assert t == [];
    }
  }

  lemma PathsOfConcat(s: seq<Info>, t: seq<Info>)
    ensures Paths(s + t) == Paths(s) + Paths(t)
  {
    assert |Paths(s + t)| == |Paths(s) + Paths(t)|;
  }

  /** Scans from the back for the place of x: every record after it is one x
      goes before, and the record just before it is one x does not go before. */
  method FindSlot(s: seq<Info>, x: Info, cs: seq<Criterion>) returns (k: nat)
    ensures k <= |s|
    ensures 0 < k ==> !Before(x, s[k - 1], cs)
    ensures forall j :: k <= j < |s| ==> Before(x, s[j], cs)
  {
    k := |s|;
    while k > 0
      invariant k <= |s|
      invariant forall j :: k <= j < |s| ==> Before(x, s[j], cs)
    {
      var less := MSort(x, s[k - 1], cs);
      if !less {
        return;
      }
      k := k - 1;
    }
  }

  /** Inserts x into a sorted sequence after every record it does not go before. */
  method Insert(s: seq<Info>, x: Info, cs: seq<Criterion>) returns (r: seq<Info>)
    requires Sorted(s, cs)
    ensures Sorted(r, cs)
    ensures multiset(r) == multiset(s) + multiset{x}
  {
    var k := FindSlot(s, x, cs);
    r := s[..k] + [x] + s[k..];
    InsertedSorted(s, x, k, cs);
    InsertedAdds(s, x, k);
  }

  /** Splitting a sequence to put x in between adds exactly x. */
  lemma InsertedAdds(s: seq<Info>, x: Info, k: nat)
    requires k <= |s|
    ensures multiset(s[..k] + [x] + s[k..]) == multiset(s) + multiset{x}
  {
    assert s == s[..k] + s[k..];
  }

  /** Putting x after a record it does not go before, and before the records
      it does go before, keeps a sorted sequence sorted. */
  lemma InsertedSorted(s: seq<Info>, x: Info, k: nat, cs: seq<Criterion>)
    requires k <= |s| && Sorted(s, cs)
    requires 0 < k ==> !Before(x, s[k - 1], cs)
    requires forall j :: k <= j < |s| ==> Before(x, s[j], cs)
    ensures Sorted(s[..k] + [x] + s[k..], cs)
  {
    forall i | 0 <= i < k ensures !Before(x, s[i], cs) {
      if i < k - 1 {
        NotBeforeTransitive(s[i], s[k - 1], x, cs);
      }
    }
    forall j | k <= j < |s| ensures !Before(s[j], x, cs) {
      Asymmetric(x, s[j], cs);
    }
    InsertedBetween(s, x, k, cs);
  }

  /** Putting x between the records it does not go before and those that do
      not go before it keeps a sorted sequence sorted. */
  lemma InsertedBetween(s: seq<Info>, x: Info, k: nat, cs: seq<Criterion>)
    requires k <= |s| && Sorted(s, cs)
    requires forall i :: 0 <= i < k ==> !Before(x, s[i], cs)
    requires forall j :: k <= j < |s| ==> !Before(s[j], x, cs)
    ensures Sorted(s[..k] + [x] + s[k..], cs)
  {
    var r := s[..k] + [x] + s[k..];
    forall i, j | 0 <= i < j < |r| ensures !Before(r[j], r[i], cs) {
      if j < k {
        assert r[i] == s[i] && r[j] == s[j];
      } else if j == k {
        assert r[i] == s[i] && r[j] == x;
      } else if i < k {
        assert r[i] == s[i] && r[j] == s[j - 1];
      } else if i == k {
        assert r[i] == x && r[j] == s[j - 1];
      } else {
        assert r[i] == s[i - 1] && r[j] == s[j - 1];
      }
    }
  }

  /** The image list: the (path, size) records found in the input directory. */
  class ImageSorter {
    var files: seq<Info>

    /** The directory scan is not modelled: the records are given. */
    constructor (files: seq<Info>)
      ensures this.files == files
    {
      this.files := files;
    }

    /** ImageSorter::sort: orders the stored records in place by the mode's
        chain (MAXSIDE unless told otherwise) and returns their paths. */
    method Sort(mode: SortMode := DefaultMode) returns (result: seq<string>)
      modifies this
      ensures multiset(files) == multiset(old(files))
      ensures Sorted(files, Criteria(mode))
      ensures result == Paths(files)
      ensures multiset(result) == multiset(Paths(old(files)))
    {
      var cs := Criteria(mode);
      var input := files;
      var sorted: seq<Info> := [];
      var i := 0;
      while i < |input|
        invariant 0 <= i <= |input|
        invariant Sorted(sorted, cs)
        invariant multiset(sorted) == multiset(input[..i])
      {
        sorted := Insert(sorted, input[i], cs);
        assert input[..i + 1] == input[..i] + [input[i]];
        i := i + 1;
      }
      assert input[..i] == input;
      PathsPermutation(sorted, input);
      files := sorted;
      result := Paths(sorted);
    }
  }
}
