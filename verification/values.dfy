/** The data a template is rendered against: PHP values and PHP's ordered
    arrays with string keys, with the array operations the parser uses
    (`$a[$k] = $v`, `array_merge`, `isset`, the string cast and `empty`). */
module Values {
  import opened Wrappers
  import opened Text

  /** A PHP value as the parser sees it: a string, an integer, a boolean, null,
      or an array, that is, an ordered map from keys to values. */
  datatype Value =
    | Str(s: string)
    | Int(n: int)
    | Bool(b: bool)
    | Null
    | Arr(entries: seq<(string, Value)>)

  /** An ordered PHP array with string keys. */
  type Dict<V> = seq<(string, V)>

  /** The errors PHP raises inside a filter call. */
  datatype Failure =
    | ArgumentCountError(function_name: string)
    | TypeError(function_name: string)
    | LibraryFailure(message: string)

  // ---------------------------------------------------------------------
  // Ordered arrays

  function Keys<V>(d: Dict<V>): (ks: seq<string>)
    ensures |ks| == |d| && forall i :: 0 <= i < |d| ==> ks[i] == d[i].0
  {
    seq(|d|, i requires 0 <= i < |d| => d[i].0)
  }

  predicate UniqueKeys<V>(d: Dict<V>) {
    forall i, j :: 0 <= i < j < |d| ==> d[i].0 != d[j].0
  }

  /** The value stored under `k`, if any. */
  function Lookup<V>(d: Dict<V>, k: string): (r: Option<V>)
    ensures r.Some? <==> k in Keys(d)
    ensures r.Some? ==> exists i :: 0 <= i < |d| && d[i] == (k, r.value)
  {
    if d == [] then None
    else if d[0].0 == k then Some(d[0].1)
    else Lookup(d[1..], k)
  }

  /** PHP `$d[$k] = $v`: an existing key keeps its position and takes the new
      value; a new key is appended. */
  function Put<V>(d: Dict<V>, k: string, v: V): Dict<V> {
    if d == [] then [(k, v)]
    else if d[0].0 == k then [(k, v)] + d[1..]
    else [d[0]] + Put(d[1..], k, v)
  }

  /** PHP `array_merge($a, $b)` for string keys: each entry of `b`, in order,
      is assigned into a copy of `a`. */
  function Merge<V>(a: Dict<V>, b: Dict<V>): Dict<V>
    decreases |b|
  {
    if b == [] then a else Merge(Put(a, b[0].0, b[0].1), b[1..])
  }

  /** After `$d[$k] = $v`, `k` reads `v` and every other key reads as before. */
  lemma {:induction false} PutLookup<V>(d: Dict<V>, k: string, v: V, q: string)
    ensures Lookup(Put(d, k, v), q) == if q == k then Some(v) else Lookup(d, q)
  {
    if d != [] && d[0].0 != k {
      PutLookup(d[1..], k, v, q);
    }
  }

  /** The keys of an array with one more entry in front. */
  lemma KeysCons<V>(e: (string, V), rest: Dict<V>)
    ensures Keys([e] + rest) == [e.0] + Keys(rest)
  {
  }

  /** `$d[$k] = $v` keeps the order of existing keys and appends a new one. */
  lemma {:induction false} PutKeys<V>(d: Dict<V>, k: string, v: V)
    ensures Keys(Put(d, k, v)) == if k in Keys(d) then Keys(d) else Keys(d) + [k]
  {
    if d == [] {
    } else {
      assert d == [d[0]] + d[1..];
      KeysCons(d[0], d[1..]);
      if d[0].0 == k {
        KeysCons((k, v), d[1..]);
      } else {
        PutKeys(d[1..], k, v);
        KeysCons(d[0], Put(d[1..], k, v));
        assert k in Keys(d) <==> k in Keys(d[1..]);
      }
    }
  }

  /** A PHP array never holds a key twice, and assignment keeps it so. */
  lemma PutUnique<V>(d: Dict<V>, k: string, v: V)
    requires UniqueKeys(d)
    ensures UniqueKeys(Put(d, k, v))
  {
    var r := Put(d, k, v);
    PutKeys(d, k, v);
    forall i, j | 0 <= i < j < |r| ensures r[i].0 != r[j].0 {
      assert Keys(r)[i] == r[i].0 && Keys(r)[j] == r[j].0;
      if k !in Keys(d) {
        if j == |d| {
          assert Keys(r)[i] == Keys(d)[i];
        } else {
          assert Keys(r)[i] == d[i].0 && Keys(r)[j] == d[j].0;
        }
      } else {
        assert Keys(r)[i] == d[i].0 && Keys(r)[j] == d[j].0;
      }
    }
  }

  /** `array_merge($a, $b)`: a key of `b` reads its value in `b`; any other key
      reads its value in `a`. */
  lemma {:induction false} MergeLookup<V>(a: Dict<V>, b: Dict<V>, q: string)
    requires UniqueKeys(b)
    ensures Lookup(Merge(a, b), q) == if q in Keys(b) then Lookup(b, q) else Lookup(a, q)
    decreases |b|
  {
    if b != [] {
      var a' := Put(a, b[0].0, b[0].1);
      assert UniqueKeys(b[1..]);
      MergeLookup(a', b[1..], q);
      PutLookup(a, b[0].0, b[0].1, q);
      assert Keys(b) == [b[0].0] + Keys(b[1..]);
      if q == b[0].0 {
        assert q !in Keys(b[1..]);
      }
    }
  }

  /** `array_merge` of two PHP arrays is a PHP array. */
  lemma {:induction false} MergeUnique<V>(a: Dict<V>, b: Dict<V>)
    requires UniqueKeys(a)
    ensures UniqueKeys(Merge(a, b))
    decreases |b|
  {
    if b != [] {
      PutUnique(a, b[0].0, b[0].1);
      MergeUnique(Put(a, b[0].0, b[0].1), b[1..]);
    }
  }

  // ---------------------------------------------------------------------
  // PHP conversions

  /** PHP's `(string)` cast as `preg_replace_callback` applies it to what a
      callback returns: an array becomes the word "Array". */
  function ToStr(v: Value): string {
    match v
    case Str(s) => s
    case Int(n) => IntToString(n)
    case Bool(b) => if b then "1" else ""
    case Null => ""
    case Arr(_) => "Array"
  }

  /** The coercion of a string parameter of a PHP built-in: scalars become
      strings, an array is a TypeError. */
  function AsString(v: Value, fn: string): (r: Result<string, Failure>)
    ensures r.Ok? <==> !v.Arr?
    ensures r.Ok? ==> r.value == ToStr(v)
  {
    if v.Arr? then Err(TypeError(fn)) else Ok(ToStr(v))
  }

  /** PHP `empty($v)`. */
  predicate IsEmpty(v: Value) {
    match v
    case Str(s) => s == "" || s == "0"
    case Int(n) => n == 0
    case Bool(b) => !b
    case Null => true
    case Arr(es) => es == []
  }

  /** PHP `isset($a[$k])`: the key is present and its value is not null. */
  predicate IsSet(d: Dict<Value>, k: string) {
    Lookup(d, k).Some? && Lookup(d, k).value != Null
  }
}
