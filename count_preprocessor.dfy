/**
 * `preprocess_counts`: a histogram whose keys are measured bit strings
 * (registers separated by spaces, most significant bit first) becomes a
 * map from the integer each key denotes to its count, listed in
 * ascending key order. The histogram is given as its items in
 * iteration order, since a later key that denotes the same integer
 * overwrites an earlier one.
 */
module CountPreprocessor {
  import opened Wrappers

  /** The ValueError of `int(key, 2)`, carrying the string handed to `int`. */
  datatype ParseError = NotBinary(key: string)

  /** `s.replace(' ', '')`: every space goes, every other character stays. */
  function StripSpaces(s: string): (r: string)
    ensures ' ' !in r
    ensures forall c :: c != ' ' ==> multiset(r)[c] == multiset(s)[c]
  {
    if s == [] then []
    else
      assert s == s[..|s| - 1] + [s[|s| - 1]];
      StripSpaces(s[..|s| - 1]) + (if s[|s| - 1] == ' ' then [] else [s[|s| - 1]])
  }

  predicate IsBinary(s: string)
  {
    forall i :: 0 <= i < |s| ==> s[i] == '0' || s[i] == '1'
  }

  /** The value of a bit string read most significant bit first. */
  function BinaryValue(s: string): nat
    requires IsBinary(s)
  {
    if s == [] then 0
    else 2 * BinaryValue(s[..|s| - 1]) + (if s[|s| - 1] == '1' then 1 else 0)
  }

  /** Removing spaces keeps the order of the other characters. */
  lemma {:induction false} StripSpacesAppend(a: string, b: string)
    ensures StripSpaces(a + b) == StripSpaces(a) + StripSpaces(b)
  {
    if b != [] {
      var b' := b[..|b| - 1];
      assert (a + b)[..|a + b| - 1] == a + b';
      StripSpacesAppend(a, b');
    } else {
      assert a + b == a;
    }
  }

  /** A key without spaces is handed to `int` unchanged. */
  lemma {:induction false} StripSpacesNoSpace(s: string)
    requires ' ' !in s
    ensures StripSpaces(s) == s
  {
    if s != [] {
      StripSpacesNoSpace(s[..|s| - 1]);
      assert s == s[..|s| - 1] + [s[|s| - 1]];
    }
  }

  /**
   * `int(k.replace(' ', ''), 2)`: defined exactly on keys whose spaceless
   * form is a non-empty bit string, and then the value whose w-bit
   * encoding is that spaceless form.
   */
  function ParseKey(k: string): (r: Option<nat>)
    ensures r.Some? <==> StripSpaces(k) != [] && IsBinary(StripSpaces(k))
    ensures r.Some? ==> r.value < Pow2(|StripSpaces(k)|)
                        && ToBits(r.value, |StripSpaces(k)|) == StripSpaces(k)
  {
    var s := StripSpaces(k);
    if s != [] && IsBinary(s) then ToBitsParse(s); Some(BinaryValue(s)) else None
  }

  function Pow2(w: nat): nat
  {
    if w == 0 then 1 else 2 * Pow2(w - 1)
  }

  /** The w-bit string of x, the form in which a w-qubit register reports x. */
  function ToBits(x: nat, w: nat): string
  {
    if w == 0 then [] else ToBits(x / 2, w - 1) + [if x % 2 == 1 then '1' else '0']
  }

  /** Encoding an outcome and parsing it back yields the outcome. */
  lemma {:induction false} ParseToBits(x: nat, w: nat)
    requires x < Pow2(w)
    ensures |ToBits(x, w)| == w && IsBinary(ToBits(x, w))
    ensures BinaryValue(ToBits(x, w)) == x
  {
    if w > 0 {
      ParseToBits(x / 2, w - 1);
      var s := ToBits(x, w);
      assert s[..|s| - 1] == ToBits(x / 2, w - 1);
    }
  }

  /** Parsing a w-bit string and encoding the value in w bits yields the string. */
  lemma {:induction false} ToBitsParse(s: string)
    requires IsBinary(s)
    ensures BinaryValue(s) < Pow2(|s|)
    ensures ToBits(BinaryValue(s), |s|) == s
  {
    if s != [] {
      var init := s[..|s| - 1];
      assert IsBinary(init);
      ToBitsParse(init);
      var v := BinaryValue(s);
      assert v / 2 == BinaryValue(init);
      assert s == init + [s[|s| - 1]];
    }
  }

  /** Two bit strings of one register width are told apart by their values. */
  lemma FixedWidthInjective(s: string, t: string)
    requires IsBinary(s) && IsBinary(t) && |s| == |t|
    requires BinaryValue(s) == BinaryValue(t)
    ensures s == t
  {
    ToBitsParse(s);
    ToBitsParse(t);
  }

  // ---------------------------------------------------------------------
  // The dictionary `out` and its sorted items
  // ---------------------------------------------------------------------

  predicate AllParse(counts: seq<(string, nat)>)
  {
    forall i :: 0 <= i < |counts| ==> ParseKey(counts[i].0).Some?
  }

  /** The histogram with every key replaced by the integer it denotes. */
  function Parsed(counts: seq<(string, nat)>): (p: seq<(nat, nat)>)
    requires AllParse(counts)
    ensures |p| == |counts|
  {
    if counts == [] then []
    else
      var last := counts[|counts| - 1];
      Parsed(counts[..|counts| - 1]) + [(ParseKey(last.0).value, last.1)]
  }

  /** The dictionary built by assigning the items in order: a later key overwrites. */
  function ToMap(p: seq<(nat, nat)>): map<nat, nat>
  {
    if p == [] then map[] else ToMap(p[..|p| - 1])[p[|p| - 1].0 := p[|p| - 1].1]
  }

  predicate StrictlyAscending(p: seq<(nat, nat)>)
  {
    forall i, j :: 0 <= i < j < |p| ==> p[i].0 < p[j].0
  }

  predicate DistinctKeys<K(==)>(p: seq<(K, nat)>)
  {
    forall i, j :: 0 <= i < j < |p| ==> p[i].0 != p[j].0
  }

  /** The keys of the built dictionary are exactly the keys assigned. */
  lemma {:induction false} ToMapKeys(p: seq<(nat, nat)>)
    ensures ToMap(p).Keys == set i | 0 <= i < |p| :: p[i].0
  {
    if p != [] {
      var init := p[..|p| - 1];
      ToMapKeys(init);
      assert (set i | 0 <= i < |p| :: p[i].0) == (set i | 0 <= i < |init| :: init[i].0) + {p[|p| - 1].0};
    }
  }

  /** The dictionary holds, for each key, the count of the last item assigning it. */
  lemma {:induction false} ToMapLastWins(p: seq<(nat, nat)>, i: nat)
    requires i < |p|
    requires forall j :: i < j < |p| ==> p[j].0 != p[i].0
    ensures p[i].0 in ToMap(p) && ToMap(p)[p[i].0] == p[i].1
  {
    if i < |p| - 1 {
      ToMapLastWins(p[..|p| - 1], i);
    }
  }

  /** The last item of a strictly ascending list holds the dictionary's largest key. */
  lemma LastIsLargest(p: seq<(nat, nat)>)
    requires StrictlyAscending(p) && p != []
    ensures p[|p| - 1].0 in ToMap(p) && ToMap(p)[p[|p| - 1].0] == p[|p| - 1].1
    ensures forall k :: k in ToMap(p) ==> k <= p[|p| - 1].0
  {
    ToMapKeys(p);
  }

  /** Dropping the last item of a strictly ascending list removes just its key. */
  lemma DropLast(p: seq<(nat, nat)>)
    requires StrictlyAscending(p) && p != []
    ensures StrictlyAscending(p[..|p| - 1])
    ensures ToMap(p[..|p| - 1]) == ToMap(p) - {p[|p| - 1].0}
  {
    var init := p[..|p| - 1];
    ToMapKeys(init);
    assert p[|p| - 1].0 !in ToMap(init);
  }

  /** A strictly ascending item list is the only sorted listing of its dictionary. */
  lemma {:induction false} SortedUnique(p: seq<(nat, nat)>, q: seq<(nat, nat)>)
    requires StrictlyAscending(p) && StrictlyAscending(q)
    requires ToMap(p) == ToMap(q)
    ensures p == q
    decreases |p|
  {
    if p != [] && q != [] {
      LastIsLargest(p);
      LastIsLargest(q);
      DropLast(p);
      DropLast(q);
      SortedUnique(p[..|p| - 1], q[..|q| - 1]);
      assert p == p[..|p| - 1] + [p[|p| - 1]];
      assert q == q[..|q| - 1] + [q[|q| - 1]];
    } else if p != [] {
      LastIsLargest(p);
    } else if q != [] {
      LastIsLargest(q);
    }
  }

  // ---------------------------------------------------------------------
  // Totals
  // ---------------------------------------------------------------------

  function Total<K>(p: seq<(K, nat)>): nat
  {
    if p == [] then 0 else Total(p[..|p| - 1]) + p[|p| - 1].1
  }

  /** The sum of a dictionary's values, taken in any order. */
  ghost function MapTotal(m: map<nat, nat>): nat
    decreases |m|
  {
    if m == map[] then 0
    else
      var k :| k in m;
      assert |m - {k}| < |m| by { RemoveShrinks(m, k); }
      m[k] + MapTotal(m - {k})
  }

  lemma RemoveShrinks(m: map<nat, nat>, k: nat)
    requires k in m
    ensures |m - {k}| == |m| - 1
  {
    assert (m - {k}).Keys == m.Keys - {k};
  }

  /** Any key may be taken out first. */
  lemma {:induction false} MapTotalRemove(m: map<nat, nat>, k: nat)
    requires k in m
    ensures MapTotal(m) == m[k] + MapTotal(m - {k})
    decreases |m|
  {
    var j :| j in m && MapTotal(m) == m[j] + MapTotal(m - {j});
    if j != k {
      RemoveShrinks(m, j);
      RemoveShrinks(m, k);
      MapTotalRemove(m - {j}, k);
      MapTotalRemove(m - {k}, j);
      assert m - {j} - {k} == m - {k} - {j};
    }
  }

  /** Assigning distinct keys loses nothing: the dictionary totals what the items total. */
  lemma {:induction false} TotalDistinct(p: seq<(nat, nat)>)
    requires DistinctKeys(p)
    ensures MapTotal(ToMap(p)) == Total(p)
  {
    if p != [] {
      var init := p[..|p| - 1];
      var last := p[|p| - 1];
      assert DistinctKeys(init);
      TotalDistinct(init);
      ToMapKeys(init);
      assert last.0 !in ToMap(init);
      MapTotalRemove(ToMap(p), last.0);
      assert ToMap(p) - {last.0} == ToMap(init);
    }
  }

  lemma {:induction false} TotalParsed(counts: seq<(string, nat)>)
    requires AllParse(counts)
    ensures Total(Parsed(counts)) == Total(counts)
  {
    if counts != [] {
      var init := counts[..|counts| - 1];
      assert AllParse(init);
      TotalParsed(init);
    }
  }

  // ---------------------------------------------------------------------
  // The operation
  // ---------------------------------------------------------------------

  /** `dict(sorted(out.items()))`: the items of a dictionary in ascending key order. */
  method SortedItems(m: map<nat, nat>) returns (items: seq<(nat, nat)>)
    ensures StrictlyAscending(items)
    ensures ToMap(items) == m
  {
    var pending := m.Keys;
    ghost var built: map<nat, nat> := map[];
    items := [];
    while pending != {}
      invariant pending <= m.Keys
      invariant built == ToMap(items)
      invariant built.Keys == m.Keys - pending
      invariant forall x :: x in built ==> built[x] == m[x]
      invariant StrictlyAscending(items)
      invariant forall j, x :: 0 <= j < |items| && x in pending ==> items[j].0 < x
      decreases pending
    {
      var some :| some in pending;
      LeastExists(pending, some);
      var k :| IsLeast(k, pending);
      ToMapSnoc(items, (k, m[k]));
      built, pending, items := built[k := m[k]], pending - {k}, items + [(k, m[k])];
    }
    assert built == m;
  }

  lemma ToMapSnoc(p: seq<(nat, nat)>, x: (nat, nat))
    ensures ToMap(p + [x]) == ToMap(p)[x.0 := x.1]
  {
    assert (p + [x])[..|p|] == p;
  }

  /** k is the smallest element of s. */
  predicate IsLeast(k: nat, s: set<nat>)
  {
    k in s && forall j :: j in s ==> k <= j
  }

  /** Every non-empty set of naturals has a least element at or below any of its members. */
  lemma {:induction false} LeastExists(s: set<nat>, x: nat)
    requires x in s
    ensures exists k :: IsLeast(k, s)
    decreases x
  {
    if !IsLeast(x, s) {
      var y :| y in s && y < x;
      LeastExists(s, y);
    }
  }

  /**
   * preprocess_counts. Fails at the first key that is not a bit string;
   * otherwise the result lists, in strictly ascending order, the integer
   * of every key, each carrying the count of the last key denoting it;
   * when no two keys denote the same integer every count survives.
   */
  method PreprocessCounts(counts: seq<(string, nat)>) returns (r: Result<seq<(nat, nat)>, ParseError>)
    ensures r.Err? <==> !AllParse(counts)
    ensures r.Err? ==> exists i :: 0 <= i < |counts| && AllParse(counts[..i])
                         && ParseKey(counts[i].0).None? && r.error == NotBinary(StripSpaces(counts[i].0))
    ensures r.Ok? ==> StrictlyAscending(r.value)
    ensures r.Ok? ==> ToMap(r.value) == ToMap(Parsed(counts))
    ensures r.Ok? ==>
              (set j | 0 <= j < |r.value| :: r.value[j].0)
              == (set i | 0 <= i < |counts| :: ParseKey(counts[i].0).value)
    ensures r.Ok? && DistinctKeys(Parsed(counts)) ==> Total(r.value) == Total(counts)
  {
    var out: map<nat, nat> := map[];
    var i := 0;
    while i < |counts|
      invariant 0 <= i <= |counts|
      invariant AllParse(counts[..i])
      invariant out == ToMap(Parsed(counts[..i]))
    {
      var key := ParseKey(counts[i].0);
      if key.None? {
        assert AllParse(counts[..i]) && ParseKey(counts[i].0).None?;
        return Err(NotBinary(StripSpaces(counts[i].0)));
      }
      ParsedSnoc(counts, i);
      out := out[key.value := counts[i].1];
      i := i + 1;
    }
    assert counts[..|counts|] == counts;
    var items := SortedItems(out);
    SortedResultFacts(counts, items);
    r := Ok(items);
  }

  lemma ParsedSnoc(counts: seq<(string, nat)>, i: nat)
    requires i < |counts| && AllParse(counts[..i]) && ParseKey(counts[i].0).Some?
    ensures AllParse(counts[..i + 1])
    ensures Parsed(counts[..i + 1]) == Parsed(counts[..i]) + [(ParseKey(counts[i].0).value, counts[i].1)]
  {
    assert counts[..i + 1][..i] == counts[..i];
  }

  /** What the sorted dictionary says about the histogram it was built from. */
  lemma SortedResultFacts(counts: seq<(string, nat)>, items: seq<(nat, nat)>)
    requires AllParse(counts)
    requires StrictlyAscending(items) && ToMap(items) == ToMap(Parsed(counts))
    ensures (set j | 0 <= j < |items| :: items[j].0)
            == (set i | 0 <= i < |counts| :: ParseKey(counts[i].0).value)
    ensures DistinctKeys(Parsed(counts)) ==> Total(items) == Total(counts)
  {
    var p := Parsed(counts);
    ToMapKeys(items);
    ToMapKeys(p);
    ParsedAt(counts);
    assert (set i | 0 <= i < |p| :: p[i].0) == (set i | 0 <= i < |counts| :: ParseKey(counts[i].0).value);
    if DistinctKeys(p) {
      TotalDistinct(items);
      TotalDistinct(p);
      TotalParsed(counts);
    }
  }

  lemma {:induction false} ParsedAt(counts: seq<(string, nat)>)
    requires AllParse(counts)
    ensures forall i :: 0 <= i < |counts| ==> Parsed(counts)[i] == (ParseKey(counts[i].0).value, counts[i].1)
  {
    if counts != [] {
      var init := counts[..|counts| - 1];
      assert AllParse(init);
      ParsedAt(init);
      var p := Parsed(counts);
      forall i | 0 <= i < |counts|
        ensures p[i] == (ParseKey(counts[i].0).value, counts[i].1)
      {
        if i < |init| {
          assert p[i] == Parsed(init)[i] && counts[i] == init[i];
        }
      }
    }
  }

  /**
   * Keys of one register layout that are pairwise different once their
   * spaces are removed never collide as integers, so every count survives.
   */
  lemma SameWidthKeysKeepAllCounts(counts: seq<(string, nat)>, w: nat)
    requires AllParse(counts)
    requires forall i :: 0 <= i < |counts| ==> |StripSpaces(counts[i].0)| == w
    requires forall i, j :: 0 <= i < j < |counts| ==> StripSpaces(counts[i].0) != StripSpaces(counts[j].0)
    ensures DistinctKeys(Parsed(counts))
  {
    var p := Parsed(counts);
    ParsedAt(counts);
    forall i, j | 0 <= i < j < |p|
      ensures p[i].0 != p[j].0
    {
      var s, t := StripSpaces(counts[i].0), StripSpaces(counts[j].0);
      if p[i].0 == p[j].0 {
        FixedWidthInjective(s, t);
      }
    }
  }

  lemma ParseZeroZero()
    ensures ParseKey("0 0") == Some(0)
  {
    assert "0 0" == "0 " + "0";
    assert "0 " == "0" + " ";
    StripSpacesNoSpace("0");
    StripSpacesAppend("0", " ");
    StripSpacesAppend("0 ", "0");
    assert StripSpaces("0 0") == "00";
    assert "00"[..1] == "0";
  }

  lemma ParseOneOne()
    ensures ParseKey("1 1") == Some(3)
  {
    assert "1 1" == "1 " + "1";
    assert "1 " == "1" + " ";
    StripSpacesNoSpace("1");
    StripSpacesAppend("1", " ");
    StripSpacesAppend("1 ", "1");
    assert StripSpaces("1 1") == "11";
    assert "11"[..1] == "1";
  }

  /** The two-register histogram {"0 0": 500, "1 1": 524} becomes {0: 500, 3: 524}, 1024 shots in all. */
  lemma TwoRegisterExample()
    ensures AllParse([("0 0", 500), ("1 1", 524)])
    ensures Parsed([("0 0", 500), ("1 1", 524)]) == [(0, 500), (3, 524)]
    ensures ToMap([(0, 500), (3, 524)]) == map[0 := 500, 3 := 524]
    ensures Total([("0 0", 500), ("1 1", 524)]) == 1024
  {
    var c: seq<(string, nat)> := [("0 0", 500), ("1 1", 524)];
    ParseZeroZero();
    ParseOneOne();
    assert AllParse(c[..1]) by { assert c[..1] == [("0 0", 500)]; }
    assert Parsed(c[..1]) == [(0, 500)] by { assert c[..1] == [("0 0", 500)]; }
    ParsedSnoc(c, 1);
    assert c[..2] == c;
    var p: seq<(nat, nat)> := [(0, 500), (3, 524)];
    ToMapSnoc([(0, 500)], (3, 524));
    assert [(0, 500)] + [(3, 524)] == p;
    assert Total(c) == Total(c[..1]) + 524;
  }

  /** preprocess_counts on the two-register histogram {"0 0": 500, "1 1": 524}. */
  method PreprocessExample() returns (r: Result<seq<(nat, nat)>, ParseError>)
    ensures r == Ok([(0, 500), (3, 524)])
    ensures r.Ok? && Total(r.value) == 1024
  {
    var counts: seq<(string, nat)> := [("0 0", 500), ("1 1", 524)];
    TwoRegisterExample();
    r := PreprocessCounts(counts);
    SortedUnique(r.value, [(0, 500), (3, 524)]);
  }
}
