/** `UserController::filterData`: the recursive sanitiser applied to a request's
    fields before they are validated. */
module Sanitizer {
  import opened Php

  /** The cleaned form of a string field, `trim(strip_tags($value))`.
      `strip_tags` is PHP library code and is passed in uninterpreted. */
  function CleanString(s: string, stripTags: string -> string): (r: string)
    ensures IsTrimmed(r)
  {
    Trim(stripTags(s))
  }

  /** The value `filterData` writes under a field's key, or None when it drops
      the field: kept strings are cleaned, non-empty arrays are sanitised
      recursively, numbers are copied, and everything else is dropped. */
  function Cleaned(v: Value, stripTags: string -> string): (r: Option<Value>)
    ensures r.Some? <==>
              || (v.Str? && Truthy(CleanString(v.s, stripTags)))
              || (v.Arr? && v.entries != [])
              || v.Int? || v.Flt?
    ensures r.Some? ==> (r.value.Str? <==> v.Str?) && (r.value.Arr? <==> v.Arr?)
    ensures v.Int? || v.Flt? ==> r == Some(v)
    decreases v, 2
  {
    match v
    case Str(s) => if Truthy(CleanString(s, stripTags)) then Some(Str(CleanString(s, stripTags))) else None
    case Arr(es) => if es != [] then Some(Arr(Sanitized(v, stripTags))) else None
    case Int(_) => Some(v)
    case Flt(_) => Some(v)
    case Bool(_) => None
    case Null => None
    case Obj => None
  }

  /** The array `filterData($values)` returns: nothing for an empty or
      non-array argument, otherwise the `foreach` over all its entries. */
  function Sanitized(values: Value, stripTags: string -> string): (r: PhpArray)
    ensures IsEmpty(values) || !values.Arr? ==> r == []
    ensures |r| <= if values.Arr? then |values.entries| else 0
    decreases values, 1
  {
    if IsEmpty(values) || !values.Arr? then []
    else
      var kept := Kept(values, |values.entries|, stripTags);
      FoldLength(values.entries, kept, |values.entries|);
      Fold(values.entries, kept, |values.entries|)
  }

  /** What each of the first `n` entries of the array `values` cleans to. */
  function Kept(values: Value, n: nat, stripTags: string -> string): (ks: seq<Option<Value>>)
    requires values.Arr? && n <= |values.entries|
    ensures |ks| == n
    decreases values, 0, n
  {
    if n == 0 then []
    else
      assert values.entries[n - 1] in values.entries;
      Kept(values, n - 1, stripTags) + [Cleaned(values.entries[n - 1].1, stripTags)]
  }

  /** Position `i` of the list holds what entry `i` cleans to. */
  lemma {:induction false} KeptAt(values: Value, n: nat, i: nat, stripTags: string -> string)
    requires values.Arr? && i < n <= |values.entries|
    ensures Kept(values, n, stripTags)[i] == Cleaned(values.entries[i].1, stripTags)
  {
    if i < n - 1 {
      KeptAt(values, n - 1, i, stripTags);
    }
  }

  /** The `foreach` of `filterData` over the first `n` entries of `es`, given
      for each entry the value it is written as, or None when it is skipped. */
  function Fold(es: PhpArray, kept: seq<Option<Value>>, n: nat): PhpArray
    requires n <= |es| == |kept|
  {
    if n == 0 then []
    else
      var acc := Fold(es, kept, n - 1);
      if kept[n - 1].Some? then Assign(acc, es[n - 1].0, kept[n - 1].value) else acc
  }

  /** Each iteration writes at most one new key. */
  lemma {:induction false} FoldLength(es: PhpArray, kept: seq<Option<Value>>, n: nat)
    requires n <= |es| == |kept|
    ensures |Fold(es, kept, n)| <= n
  {
    if n > 0 {
      FoldLength(es, kept, n - 1);
    }
  }

  /** `filterData`: a `foreach` over the entries that writes each kept field
      into a fresh array, with a recursive call for each non-empty nested array. */
  method FilterData(values: Value, stripTags: string -> string) returns (data: PhpArray)
    ensures data == Sanitized(values, stripTags)
    ensures (IsEmpty(values) || !values.Arr?) ==> data == []
    decreases values
  {
    data := [];
    if IsEmpty(values) || !values.Arr? {
      return;
    }
    var entries := values.entries;
    ghost var kept := Kept(values, |values.entries|, stripTags);
    var i := 0;
    while i < |entries|
      invariant 0 <= i <= |entries|
      invariant data == Fold(entries, kept, i)
    {
      var key, value := entries[i].0, entries[i].1;
      ghost var before := data;
      assert entries[i] in entries;
      if value.Str? && Truthy(Trim(stripTags(value.s))) {
        data := Assign(data, key, Str(Trim(stripTags(value.s))));
      }
      if value.Arr? && !IsEmpty(value) {
        var nested := FilterData(value, stripTags);
        data := Assign(data, key, Arr(nested));
      }
      if value.Int? || value.Flt? {
        data := Assign(data, key, value);
      }
      KeptAt(values, |values.entries|, i, stripTags);
      assert data == if kept[i].Some? then Assign(before, key, kept[i].value) else before;
      i := i + 1;
    }
  }

  /** For an array argument, the result is the fold over all its entries. */
  lemma SanitizedIsFold(values: Value, stripTags: string -> string)
    requires values.Arr?
    ensures Sanitized(values, stripTags) == Fold(values.entries, Kept(values, |values.entries|, stripTags), |values.entries|)
  {
  }

  /** Under distinct keys, the fold holds under each key exactly what that
      key's entry is written as, once the `foreach` has passed it. */
  lemma {:induction false} FoldLookup(es: PhpArray, kept: seq<Option<Value>>, n: nat, k: Key)
    requires n <= |es| == |kept| && DistinctKeys(es)
    ensures Lookup(Fold(es, kept, n), k) ==
            if Lookup(es, k).Some? && IndexOf(es, k) < n then kept[IndexOf(es, k)] else None
  {
    if n > 0 {
      var acc := Fold(es, kept, n - 1);
      FoldLookup(es, kept, n - 1, k);
      if k == es[n - 1].0 {
        KeyAt(es, n - 1);
      } else if Lookup(es, k).Some? {
        assert IndexOf(es, k) != n - 1;
      }
      if kept[n - 1].Some? {
        AssignLookup(acc, es[n - 1].0, kept[n - 1].value, k);
      }
    }
  }

  /** The fold writes no key that the first `n` entries do not have. */
  lemma {:induction false} FoldKeys(es: PhpArray, kept: seq<Option<Value>>, n: nat, k: Key)
    requires n <= |es| == |kept|
    ensures Lookup(Fold(es, kept, n), k).Some? ==> Lookup(es, k).Some? && IndexOf(es, k) < n
  {
    if n > 0 {
      FoldKeys(es, kept, n - 1, k);
      KeyAt(es, n - 1);
      if kept[n - 1].Some? {
        AssignLookup(Fold(es, kept, n - 1), es[n - 1].0, kept[n - 1].value, k);
      }
    }
  }

  /** The output of a prefix lists its keys in increasing input positions, all
      below `n`. */
  predicate OrderedBefore(es: PhpArray, r: PhpArray, n: nat)
  {
    && (forall i :: 0 <= i < |r| ==> Lookup(es, r[i].0).Some? && IndexOf(es, r[i].0) < n)
    && (forall i, j :: 0 <= i < j < |r| ==>
          Lookup(es, r[i].0).Some? && Lookup(es, r[j].0).Some? &&
          IndexOf(es, r[i].0) < IndexOf(es, r[j].0))
  }

  lemma OrderedBeforeWeaken(es: PhpArray, r: PhpArray, n: nat)
    requires 0 < n && OrderedBefore(es, r, n - 1)
    ensures OrderedBefore(es, r, n)
  {
  }

  lemma AppendOrdered(es: PhpArray, acc: PhpArray, n: nat, c: Value)
    requires 0 < n <= |es| && DistinctKeys(es)
    requires OrderedBefore(es, acc, n - 1)
    ensures Lookup(acc, es[n - 1].0).None?
    ensures OrderedBefore(es, acc + [(es[n - 1].0, c)], n)
  {
    var key := es[n - 1].0;
    var r := acc + [(key, c)];
    KeyAt(es, n - 1);
    if Lookup(acc, key).Some? {
      var i := IndexOf(acc, key);
      assert false;
    }
    forall i | 0 <= i < |r|
      ensures Lookup(es, r[i].0).Some? && IndexOf(es, r[i].0) < n
    {
      if i < |acc| { assert r[i] == acc[i]; }
    }
    forall i, j | 0 <= i < j < |r|
      ensures Lookup(es, r[i].0).Some? && Lookup(es, r[j].0).Some? && IndexOf(es, r[i].0) < IndexOf(es, r[j].0)
    {
      assert r[i] == acc[i];
      if j < |acc| { assert r[j] == acc[j]; }
    }
  }

  lemma {:induction false} FoldOrder(es: PhpArray, kept: seq<Option<Value>>, n: nat)
    requires n <= |es| == |kept| && DistinctKeys(es)
    ensures OrderedBefore(es, Fold(es, kept, n), n)
  {
    if n > 0 {
      var acc := Fold(es, kept, n - 1);
      FoldOrder(es, kept, n - 1);
      if kept[n - 1].Some? {
        AppendOrdered(es, acc, n, kept[n - 1].value);
      } else {
        OrderedBeforeWeaken(es, acc, n);
      }
    }
  }

  /** What can be found in the output of `filterData`, at any depth: trimmed
      strings other than "" and "0", integers, floats, and arrays of the same
      kind; never a boolean or null. */
  predicate IsClean(v: Value)
  {
    match v
    case Str(s) => Truthy(s) && IsTrimmed(s)
    case Int(_) => true
    case Flt(_) => true
    case Bool(_) => false
    case Null => false
    case Obj => false
    case Arr(es) => forall i | 0 <= i < |es| :: IsClean(es[i].1)
  }

  /** Writing a clean value into a clean, well-formed array keeps it so. */
  lemma AssignIsClean(a: PhpArray, k: Key, v: Value)
    requires IsClean(Arr(a)) && WellFormed(Arr(a)) && IsClean(v) && WellFormed(v)
    ensures IsClean(Arr(Assign(a, k, v))) && WellFormed(Arr(Assign(a, k, v)))
  {
    var r := Assign(a, k, v);
    AssignEntries(a, k, v);
    AssignKeepsDistinct(a, k, v);
    forall i | 0 <= i < |r| ensures IsClean(r[i].1) && WellFormed(r[i].1) {
      assert r[i] in r;
      if r[i] != (k, v) {
        var j :| 0 <= j < |a| && a[j] == r[i];
      }
    }
  }

  lemma {:induction false} FoldIsClean(es: PhpArray, kept: seq<Option<Value>>, n: nat)
    requires n <= |es| == |kept|
    requires forall i :: 0 <= i < |kept| && kept[i].Some? ==> IsClean(kept[i].value) && WellFormed(kept[i].value)
    ensures IsClean(Arr(Fold(es, kept, n))) && WellFormed(Arr(Fold(es, kept, n)))
  {
    if n > 0 {
      FoldIsClean(es, kept, n - 1);
      if kept[n - 1].Some? {
        AssignIsClean(Fold(es, kept, n - 1), es[n - 1].0, kept[n - 1].value);
      }
    }
  }

  /** The value read back under a field's key, given what was read from the input. */
  function CleanedField(v: Option<Value>, stripTags: string -> string): Option<Value>
  {
    match v
    case None => None
    case Some(w) => Cleaned(w, stripTags)
  }

  /** `filterData` invents no key: every key of its result is a key of the input. */
  lemma SanitizedKeysFromInput(values: Value, k: Key, stripTags: string -> string)
    ensures Lookup(Sanitized(values, stripTags), k).Some? ==> values.Arr? && Lookup(values.entries, k).Some?
  {
    if values.Arr? {
      SanitizedIsFold(values, stripTags);
      FoldKeys(values.entries, Kept(values, |values.entries|, stripTags), |values.entries|, k);
    }
  }

  /** Reading a field back from the sanitised array gives exactly the cleaned
      form of the input's value under that key, and nothing when the input has
      no such key or the value is dropped. */
  lemma SanitizedLookup(values: Value, k: Key, stripTags: string -> string)
    requires values.Arr? && DistinctKeys(values.entries)
    ensures Lookup(Sanitized(values, stripTags), k) == CleanedField(Lookup(values.entries, k), stripTags)
  {
    var es := values.entries;
    SanitizedIsFold(values, stripTags);
    FoldLookup(es, Kept(values, |values.entries|, stripTags), |es|, k);
    if Lookup(es, k).Some? {
      KeptAt(values, |es|, IndexOf(es, k), stripTags);
    }
  }

  /** The keep, drop or transform rule of `filterData`, one kind of value at a time. */
  lemma SanitizedField(values: Value, k: Key, v: Value, stripTags: string -> string)
    requires values.Arr? && DistinctKeys(values.entries)
    requires Lookup(values.entries, k) == Some(v)
    ensures var out := Lookup(Sanitized(values, stripTags), k);
      && (v.Str? ==> (out.Some? <==> Truthy(Trim(stripTags(v.s))))
                     && (out.Some? ==> out.value == Str(Trim(stripTags(v.s))) && IsTrimmed(out.value.s)))
      && (v.Int? || v.Flt? ==> out == Some(v))
      && (v.Arr? ==> (out.Some? <==> v.entries != [])
                     && (out.Some? ==> out.value == Arr(Sanitized(v, stripTags))))
      && (v.Bool? || v.Null? || v.Obj? ==> out == None)
  {
    SanitizedLookup(values, k, stripTags);
  }

  /** `filterData` keeps the input's order: the fields it returns appear in the
      same relative order as in the input. */
  lemma SanitizedOrder(values: Value, stripTags: string -> string)
    requires values.Arr? && DistinctKeys(values.entries)
    ensures var r := Sanitized(values, stripTags);
      forall i, j :: 0 <= i < j < |r| ==>
        Lookup(values.entries, r[i].0).Some? && Lookup(values.entries, r[j].0).Some? &&
        IndexOf(values.entries, r[i].0) < IndexOf(values.entries, r[j].0)
  {
    SanitizedIsFold(values, stripTags);
    FoldOrder(values.entries, Kept(values, |values.entries|, stripTags), |values.entries|);
  }

  lemma {:induction false} CleanedIsClean(v: Value, stripTags: string -> string)
    requires Cleaned(v, stripTags).Some?
    ensures IsClean(Cleaned(v, stripTags).value) && WellFormed(Cleaned(v, stripTags).value)
    decreases v, 2
  {
    if v.Arr? {
      SanitizedIsClean(v, stripTags);
    }
  }

  /** Whatever the input, `filterData` returns a PHP array with distinct keys
      at every level that holds only clean values. */
  lemma {:induction false} SanitizedIsClean(values: Value, stripTags: string -> string)
    ensures IsClean(Arr(Sanitized(values, stripTags)))
    ensures WellFormed(Arr(Sanitized(values, stripTags)))
    decreases values, 1
  {
    if !IsEmpty(values) && values.Arr? {
      var es := values.entries;
      var kept := Kept(values, |values.entries|, stripTags);
      forall i | 0 <= i < |kept| && kept[i].Some?
        ensures IsClean(kept[i].value) && WellFormed(kept[i].value)
      {
        assert es[i] in es;
        KeptAt(values, |values.entries|, i, stripTags);
        CleanedIsClean(es[i].1, stripTags);
      }
      SanitizedIsFold(values, stripTags);
      FoldIsClean(es, kept, |es|);
    }
  }

  /** A nested array is kept under its key when it is non-empty in the input,
      even when nothing in it survives; a second pass then drops that key, so
      `filterData` is not idempotent. */
  lemma EmptiedNestedArrayIsKept(k: Key, inner: Key, stripTags: string -> string)
    ensures Sanitized(Arr([(k, Arr([(inner, Null)]))]), stripTags) == [(k, Arr([]))]
    ensures Sanitized(Arr([(k, Arr([]))]), stripTags) == []
  {
    var nested := Arr([(inner, Null)]);
    KeptAt(nested, |nested.entries|, 0, stripTags);
    assert Sanitized(nested, stripTags) == Fold(nested.entries, Kept(nested, |nested.entries|, stripTags), 1) == [];
    var outer := Arr([(k, nested)]);
    KeptAt(outer, |outer.entries|, 0, stripTags);
    assert Kept(outer, |outer.entries|, stripTags)[0] == Some(Arr([]));
    assert Sanitized(outer, stripTags) == Fold(outer.entries, Kept(outer, |outer.entries|, stripTags), 1);
    assert Fold(outer.entries, Kept(outer, |outer.entries|, stripTags), 1) == Assign([], k, Arr([]));
    var emptied := Arr([(k, Arr([]))]);
    KeptAt(emptied, |emptied.entries|, 0, stripTags);
    assert Sanitized(emptied, stripTags) == Fold(emptied.entries, Kept(emptied, |emptied.entries|, stripTags), 1) == [];
  }
}
