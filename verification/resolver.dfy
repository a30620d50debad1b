/** The variable resolver behind `get_value`: a key such as `user.name` or
    `user->name` is split into segments and walked through nested arrays. */
module Resolver {
  import opened Wrappers
  import opened Text
  import opened Values

  /** The segments of a key: split on "." when the key contains one, otherwise
      on "->" when it contains that, otherwise the whole key. */
  function SplitPath(key: string): (segs: seq<string>)
    ensures |segs| >= 1
  {
    if IndexOf(key, ".").Some? then Split(key, ".")
    else if IndexOf(key, "->").Some? then Split(key, "->")
    else [key]
  }

  /** The walk from `v` along `segs`: each segment must be set (present and not
      null) in the array reached so far; otherwise the walk yields null. */
  function Walk(v: Value, segs: seq<string>): Value
    decreases |segs|
  {
    if segs == [] then v
    else
      match v
      case Arr(es) => if IsSet(es, segs[0]) then Walk(Lookup(es, segs[0]).value, segs[1..]) else Null
      case _ => Null
  }

  /** What `get_value($key, $data)` returns. */
  function Resolve(key: string, data: Dict<Value>): Value {
    Walk(Arr(data), SplitPath(key))
  }

  /** Walking a path is walking its first part and then the rest from where
      that left off; null, which is not an array, absorbs the rest. */
  lemma {:induction false} WalkAppend(v: Value, a: seq<string>, b: seq<string>)
    ensures Walk(v, a + b) == Walk(Walk(v, a), b)
    decreases |a|
  {
    if a == [] {
      assert a + b == b;
    } else {
      assert (a + b)[0] == a[0] && (a + b)[1..] == a[1..] + b;
      match v
      case Arr(es) =>
        if IsSet(es, a[0]) {
          WalkAppend(Lookup(es, a[0]).value, a[1..], b);
        } else {
          WalkNull(b);
        }
      case _ =>
        WalkNull(b);
    }
  }

  /** Nothing can be reached from null. */
  lemma {:induction false} WalkNull(b: seq<string>)
    ensures Walk(Null, b) == Null
  {
  }

  /** The walk yields null as soon as a segment is not set in the array reached
      so far, whatever segments follow. */
  lemma StopsAtMissingSegment(v: Value, segs: seq<string>, k: nat)
    requires k < |segs|
    requires var w := Walk(v, segs[..k]); !(w.Arr? && IsSet(w.entries, segs[k]))
    ensures Walk(v, segs) == Null
  {
    assert segs == segs[..k] + segs[k..];
    WalkAppend(v, segs[..k], segs[k..]);
    var w := Walk(v, segs[..k]);
    assert segs[k..][0] == segs[k];
  }

  /** A key with a dot is split on dots only: "a.b->c" has the segments "a" and
      "b->c". Joining the segments back gives the key. */
  lemma DotWins(key: string)
    requires IndexOf(key, ".").Some?
    ensures SplitPath(key) == Split(key, ".")
    ensures Join(SplitPath(key), ".") == key
  {
    JoinSplit(key, ".");
  }

  /** A key with "->" and no dot is split on "->"; joining gives the key back. */
  lemma ArrowPath(key: string)
    requires IndexOf(key, ".").None? && IndexOf(key, "->").Some?
    ensures SplitPath(key) == Split(key, "->")
    ensures Join(SplitPath(key), "->") == key
  {
    JoinSplit(key, "->");
  }

  /** A key without separators is looked up whole: it resolves to its value
      when set, and to null otherwise. */
  lemma PlainKey(key: string, data: Dict<Value>)
    requires IndexOf(key, ".").None? && IndexOf(key, "->").None?
    ensures Resolve(key, data) == if IsSet(data, key) then Lookup(data, key).value else Null
  {
    assert SplitPath(key) == [key];
    assert [key][1..] == [];
    if IsSet(data, key) {
      assert Walk(Arr(data), [key]) == Walk(Lookup(data, key).value, []);
    }
  }

  /** `a.rest`, with no dot in `a`, resolves `rest` (split on dots) from the
      value that `a` names, segment by segment. */
  lemma DottedKey(a: string, rest: string, data: Dict<Value>)
    requires IndexOf(a, ".").None?
    ensures Resolve(a + "." + rest, data) == Walk(Walk(Arr(data), [a]), Split(rest, "."))
  {
    var key := a + "." + rest;
    assert OccursAt(key, ".", |a|) by {
      assert key[|a|..|a| + 1] == ".";
    }
    forall j | 0 <= j < |a| ensures !OccursAt(key, ".", j) {
      if OccursAt(key, ".", j) {
        assert key[j..j + 1] == a[j..j + 1];
        assert OccursAt(a, ".", j);
      }
    }
    assert IndexOf(key, ".") == Some(|a|);
    assert key[..|a|] == a && key[|a| + 1..] == rest;
    assert SplitPath(key) == [a] + Split(rest, ".");
    WalkAppend(Arr(data), [a], Split(rest, "."));
  }
}
