/** The fragment of PHP's runtime that the user controller's sanitiser relies on:
    ordered arrays with int or string keys, the `$a[$k] = $v` write, `trim`
    with its default character set, and the truthiness of strings. */
module Php {

  datatype Option<+T> = None | Some(value: T)

  /** A PHP array key: PHP arrays are keyed by integers or strings. */
  datatype Key = IntKey(i: int) | StrKey(s: string)

  /** A PHP float, kept as its IEEE-754 bit pattern: the controller only copies floats. */
  datatype Float = Float(bits: bv64)

  /** A PHP value in a request's field array. `Obj` stands for any object,
      such as an uploaded file: the sanitiser only ever drops it. */
  datatype Value =
    | Str(s: string)
    | Int(i: int)
    | Flt(f: Float)
    | Bool(b: bool)
    | Null
    | Obj
    | Arr(entries: seq<(Key, Value)>)

  /** A PHP array: its entries in insertion order. */
  type PhpArray = seq<(Key, Value)>

  /** The invariant of every PHP array: no key occurs twice. */
  predicate DistinctKeys(a: PhpArray)
  {
    forall i, j :: 0 <= i < j < |a| ==> a[i].0 != a[j].0
  }

  /** Distinct keys at every level of nesting. */
  predicate WellFormed(v: Value)
  {
    match v
    case Arr(es) => DistinctKeys(es) && forall i | 0 <= i < |es| :: WellFormed(es[i].1)
    case _ => true
  }

  /** `$a[$k]`, or None when `$k` is not a key of `$a`. */
  function Lookup(a: PhpArray, k: Key): Option<Value>
  {
    if a == [] then None
    else if a[0].0 == k then Some(a[0].1)
    else Lookup(a[1..], k)
  }

  /** The position of key `k` in `a`: the first, and in a PHP array the only, one. */
  function IndexOf(a: PhpArray, k: Key): (i: nat)
    requires Lookup(a, k).Some?
    ensures i < |a| && a[i] == (k, Lookup(a, k).value)
    ensures forall j :: 0 <= j < i ==> a[j].0 != k
  {
    if a[0].0 == k then 0 else 1 + IndexOf(a[1..], k)
  }

  /** `$a[$k] = $v`: overwrites the value of an existing key in its place,
      otherwise appends the pair at the end. */
  function Assign(a: PhpArray, k: Key, v: Value): (r: PhpArray)
    ensures Lookup(r, k) == Some(v)
    ensures Lookup(a, k).None? ==> r == a + [(k, v)]
    ensures Lookup(a, k).Some? ==> |r| == |a|
  {
    if a == [] then [(k, v)]
    else if a[0].0 == k then [(k, v)] + a[1..]
    else [a[0]] + Assign(a[1..], k, v)
  }

  /** After `$a[$k] = $v`, every other key reads as before. */
  lemma {:induction false} AssignLookup(a: PhpArray, k: Key, v: Value, q: Key)
    ensures Lookup(Assign(a, k, v), q) == if q == k then Some(v) else Lookup(a, q)
  {
    if a != [] && a[0].0 != k {
      AssignLookup(a[1..], k, v, q);
    }
  }

  /** Overwriting an existing key changes no key at any position. */
  lemma {:induction false} AssignInPlace(a: PhpArray, k: Key, v: Value)
    requires Lookup(a, k).Some?
    ensures |Assign(a, k, v)| == |a|
    ensures forall i :: 0 <= i < |a| ==> Assign(a, k, v)[i].0 == a[i].0
  {
    if a[0].0 != k {
      AssignInPlace(a[1..], k, v);
      assert forall i :: 1 <= i < |a| ==> Assign(a, k, v)[i] == Assign(a[1..], k, v)[i - 1];
    }
  }

  /** Writing a key keeps a PHP array's keys distinct. */
  lemma AssignKeepsDistinct(a: PhpArray, k: Key, v: Value)
    requires DistinctKeys(a)
    ensures DistinctKeys(Assign(a, k, v))
  {
    var r := Assign(a, k, v);
    if Lookup(a, k).Some? {
      AssignInPlace(a, k, v);
      forall i, j | 0 <= i < j < |r| ensures r[i].0 != r[j].0 {
        assert r[i].0 == a[i].0 && r[j].0 == a[j].0;
      }
    } else {
      forall i, j | 0 <= i < j < |r| ensures r[i].0 != r[j].0 {
        if j == |a| {
          KeyAt(a, i);
        }
      }
    }
  }

  /** Every entry of `$a[$k] = $v` is an old entry or the new pair. */
  lemma {:induction false} AssignEntries(a: PhpArray, k: Key, v: Value)
    ensures forall e :: e in Assign(a, k, v) ==> e in a || e == (k, v)
  {
    if a != [] && a[0].0 != k {
      AssignEntries(a[1..], k, v);
    }
  }

  /** The key at position `i` is found, and in a PHP array it is found at `i`. */
  lemma {:induction false} KeyAt(a: PhpArray, i: nat)
    requires i < |a|
    ensures Lookup(a, a[i].0).Some?
    ensures IndexOf(a, a[i].0) <= i
    ensures DistinctKeys(a) ==> IndexOf(a, a[i].0) == i && Lookup(a, a[i].0) == Some(a[i].1)
  {
    if i > 0 && a[0].0 != a[i].0 {
      KeyAt(a[1..], i - 1);
      assert a[1..][i - 1] == a[i];
    }
  }

  /** The characters PHP's `trim` removes by default: " \t\n\r\0\x0B". */
  predicate IsTrimChar(c: char)
  {
    c == ' ' || c == '\t' || c == '\n' || c == '\r' || c as int == 0 || c as int == 0x0B
  }

  /** Neither end of `s` is a character `trim` would remove. */
  predicate IsTrimmed(s: string)
  {
    s == [] || (!IsTrimChar(s[0]) && !IsTrimChar(s[|s| - 1]))
  }

  /** `ltrim($s)` with the default character set. */
  function LTrim(s: string): (r: string)
    ensures |r| <= |s|
  {
    if s != [] && IsTrimChar(s[0]) then LTrim(s[1..]) else s
  }

  /** `ltrim` gives the longest suffix of `s` that does not start with a trim
      character: what it removes is all trim characters. */
  lemma {:induction false} LTrimSpec(s: string)
    ensures forall p :: 0 <= p < |LTrim(s)| ==> LTrim(s)[p] == s[|s| - |LTrim(s)| + p]
    ensures forall p :: 0 <= p < |s| - |LTrim(s)| ==> IsTrimChar(s[p])
    ensures LTrim(s) == [] || !IsTrimChar(LTrim(s)[0])
  {
    if s != [] && IsTrimChar(s[0]) {
      LTrimSpec(s[1..]);
    }
  }

  /** `rtrim($s)` with the default character set. */
  function RTrim(s: string): (r: string)
    ensures |r| <= |s|
  {
    if s != [] && IsTrimChar(s[|s| - 1]) then RTrim(s[..|s| - 1]) else s
  }

  /** `rtrim` gives the longest prefix of `s` that does not end with a trim
      character: what it removes is all trim characters. */
  lemma {:induction false} RTrimSpec(s: string)
    ensures forall p :: 0 <= p < |RTrim(s)| ==> RTrim(s)[p] == s[p]
    ensures forall p :: |RTrim(s)| <= p < |s| ==> IsTrimChar(s[p])
    ensures RTrim(s) == [] || !IsTrimChar(RTrim(s)[|RTrim(s)| - 1])
  {
    if s != [] && IsTrimChar(s[|s| - 1]) {
      RTrimSpec(s[..|s| - 1]);
    }
  }

  /** `trim($s)` with the default character set: `rtrim(ltrim($s))`. */
  function Trim(s: string): (r: string)
    ensures IsTrimmed(r)
  {
    LTrimSpec(s);
    RTrimSpec(LTrim(s));
    RTrim(LTrim(s))
  }

  /** `r` is `s[i..j]`, and everything outside that range is a trim character. */
  predicate StripsTo(s: string, r: string, i: nat, j: nat)
  {
    && i <= j <= |s| && |r| == j - i
    && (forall p :: 0 <= p < |r| ==> r[p] == s[i + p])
    && (forall p :: 0 <= p < i ==> IsTrimChar(s[p]))
    && (forall p :: j <= p < |s| ==> IsTrimChar(s[p]))
  }

  /** `trim` removes only trim characters, and only at both ends: its result
      is a contiguous part of `s` with nothing but trim characters around it. */
  lemma TrimStripsEnds(s: string)
    ensures exists i: nat, j: nat :: StripsTo(s, Trim(s), i, j)
  {
    TrimSpan(s);
  }

  /** The range `trim` keeps: from the end of what `ltrim` removes, as long as
      the result. */
  lemma TrimSpan(s: string)
    ensures StripsTo(s, Trim(s), |s| - |LTrim(s)|, |s| - |LTrim(s)| + |Trim(s)|)
  {
    var l := LTrim(s);
    LTrimSpec(s);
    RTrimSpec(l);
    var r := RTrim(l);
    var i := |s| - |l|;
    assert Trim(s) == r;
    forall p | i + |r| <= p < |s|
      ensures IsTrimChar(s[p])
    {
      assert s[p] == l[p - i];
    }
  }

  /** A string is falsy in PHP exactly when it is "" or "0": every string of
      two or more characters is truthy, even "00" or " 0". */
  predicate Truthy(s: string)
    ensures s == [] ==> !Truthy(s)
    ensures |s| == 1 ==> (Truthy(s) <==> s[0] != '0')
    ensures |s| >= 2 ==> Truthy(s)
  {
    s != "" && s != "0"
  }

  /** `empty($v)`: false, 0, 0.0 and -0.0, "", "0", null and the empty array;
      an object is never empty. */
  predicate IsEmpty(v: Value)
    ensures v.Int? ==> (IsEmpty(v) <==> v.i == 0)
    ensures v.Flt? ==> (IsEmpty(v) <==> v.f.bits & 0x7FFF_FFFF_FFFF_FFFF == 0)
    ensures v.Str? ==> (IsEmpty(v) <==> |v.s| == 0 || v.s == "0")
    ensures v.Arr? ==> (IsEmpty(v) <==> |v.entries| == 0)
    ensures v.Null? || v == Bool(false) ==> IsEmpty(v)
    ensures v.Obj? || v == Bool(true) ==> !IsEmpty(v)
  {
    match v
    case Str(s) => !Truthy(s)
    case Int(i) => i == 0
    case Flt(f) => f.bits == 0 || f.bits == 0x8000_0000_0000_0000
    case Bool(b) => !b
    case Null => true
    case Obj => false
    case Arr(es) => es == []
  }
}
