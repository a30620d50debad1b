/** The tag scanner. Every pattern the parser builds has the shape
    `L \s* word \s* ... R`, with the delimiters and the variable name quoted
    literally, so it is matched here by a small deterministic matcher over a
    list of atoms instead of a general regular-expression engine. Paired tags
    (`L noparse R ... L /noparse R`, loops, blocks) take the shortest body, as
    the lazy `(.*?)` does, and a global replacement takes the leftmost match
    and continues after it. */
module Lexer {
  import opened Wrappers
  import opened Text

  /** A tag delimiter; the parser's delimiters are never empty. */
  type Delim = s: string | |s| > 0 witness "{"

  /** The left and right delimiters (`l_delim`, `r_delim`). */
  datatype Delims = Delims(left: Delim, right: Delim)

  /** CodeIgniter's default delimiters. */
  const DefaultDelims: Delims := Delims("{", "}")

  /** One piece of a tag pattern: literal text, `\s*`, `\s+`, or a captured `\w+`. */
  datatype Atom = Lit(text: string) | Spaces | Spaces1 | Word

  /** The end of the longest run of characters satisfying `p` from `i` on. */
  function SkipWhile(t: string, i: nat, p: char -> bool): (j: nat)
    requires i <= |t|
    ensures i <= j <= |t|
    ensures forall k :: i <= k < j ==> p(t[k])
    ensures j == |t| || !p(t[j])
    decreases |t| - i
  {
    if i < |t| && p(t[i]) then SkipWhile(t, i + 1, p) else i
  }

  /** A match of a list of atoms: where it ends, and the `\w+` captures. */
  datatype Hit = Hit(end: nat, caps: seq<string>)

  /** The pattern starts with non-empty literal text, so it never matches empty. */
  predicate Anchored(atoms: seq<Atom>) {
    |atoms| > 0 && atoms[0].Lit? && |atoms[0].text| > 0
  }

  /** How many `\w+` captures a pattern makes. */
  function WordCount(atoms: seq<Atom>): nat {
    if atoms == [] then 0 else (if atoms[0].Word? then 1 else 0) + WordCount(atoms[1..])
  }

  /** The words among `atoms[i..]`, counted one atom at a time from the back. */
  function WordsFrom(atoms: seq<Atom>, i: nat): nat
    requires i <= |atoms|
    decreases |atoms| - i
  {
    if i == |atoms| then 0 else (if atoms[i].Word? then 1 else 0) + WordsFrom(atoms, i + 1)
  }

  lemma {:induction false} WordCountBack(atoms: seq<Atom>, i: nat, n: nat)
    requires i <= |atoms| == n
    ensures WordCount(atoms[i..]) == WordsFrom(atoms, i)
    decreases |atoms| - i
  {
    if i < |atoms| {
      assert atoms[i..][1..] == atoms[i + 1..];
      WordCountBack(atoms, i + 1, n);
    }
  }

  /** Match `atoms` at index `i` of `t`; the runs of spaces and word characters
      are taken greedily. */
  function MatchAtoms(t: string, i: nat, atoms: seq<Atom>): (r: Option<Hit>)
    requires i <= |t|
    ensures r.Some? ==> i <= r.value.end <= |t|
    ensures r.Some? && Anchored(atoms) ==> i < r.value.end
    ensures r.Some? && |atoms| > 0 && atoms[0].Lit? ==> OccursAt(t, atoms[0].text, i)
    ensures r.Some? ==> |r.value.caps| == WordCount(atoms)
    decreases |atoms|
  {
    if atoms == [] then Some(Hit(i, []))
    else
      match atoms[0]
      case Lit(s) =>
        if OccursAt(t, s, i) then MatchAtoms(t, i + |s|, atoms[1..]) else None
      case Spaces =>
        MatchAtoms(t, SkipWhile(t, i, IsSpace), atoms[1..])
      case Spaces1 =>
        var j := SkipWhile(t, i, IsSpace);
        if j == i then None else MatchAtoms(t, j, atoms[1..])
      case Word =>
        var j := SkipWhile(t, i, IsWordChar);
        if j == i then None
        else
          match MatchAtoms(t, j, atoms[1..])
          case None => None
          case Some(h) => Some(Hit(h.end, [t[i..j]] + h.caps))
  }

  /** The leftmost index at or after `from` where `atoms` match. */
  function FindAtoms(t: string, from: nat, atoms: seq<Atom>): (r: Option<(nat, Hit)>)
    requires from <= |t|
    ensures r.Some? ==> from <= r.value.0 <= |t| && MatchAtoms(t, r.value.0, atoms) == Some(r.value.1)
    ensures r.Some? ==> forall k :: from <= k < r.value.0 ==> MatchAtoms(t, k, atoms).None?
    ensures r.None? ==> forall k :: from <= k <= |t| ==> MatchAtoms(t, k, atoms).None?
    decreases |t| - from
  {
    match MatchAtoms(t, from, atoms)
    case Some(h) => Some((from, h))
    case None => if from == |t| then None else FindAtoms(t, from + 1, atoms)
  }

  /** A paired tag: the opening tag spans `start..bodyStart`, the body
      `bodyStart..bodyEnd` and the closing tag `bodyEnd..end`. */
  datatype Pair = Pair(start: nat, bodyStart: nat, bodyEnd: nat, end: nat, caps: seq<string>)

  /** The paired tag starting at `i`: the opening tag there and the first
      closing tag after it, so the body is as short as possible. */
  function PairAt(t: string, i: nat, open: seq<Atom>, close: seq<Atom>): (r: Option<Pair>)
    requires i <= |t|
    ensures r.Some? ==> r.value.start == i <= r.value.bodyStart <= r.value.bodyEnd <= r.value.end <= |t|
    ensures r.Some? && Anchored(open) ==> i < r.value.bodyStart
    ensures r.Some? ==> MatchAtoms(t, i, open) == Some(Hit(r.value.bodyStart, r.value.caps))
    ensures r.Some? ==> MatchAtoms(t, r.value.bodyEnd, close).Some?
    ensures r.Some? ==> forall k :: r.value.bodyStart <= k < r.value.bodyEnd ==> MatchAtoms(t, k, close).None?
    ensures r.None? && MatchAtoms(t, i, open).Some? ==>
              forall k :: MatchAtoms(t, i, open).value.end <= k <= |t| ==> MatchAtoms(t, k, close).None?
  {
    match MatchAtoms(t, i, open)
    case None => None
    case Some(h) =>
      match FindAtoms(t, h.end, close)
      case None => None
      case Some((k, h2)) => Some(Pair(i, h.end, k, h2.end, h.caps))
  }

  /** The leftmost paired tag starting at or after `from`. */
  function FirstPair(t: string, from: nat, open: seq<Atom>, close: seq<Atom>): (r: Option<Pair>)
    requires from <= |t|
    ensures r.Some? ==> from <= r.value.start <= |t| && PairAt(t, r.value.start, open, close) == r
    ensures r.Some? ==> forall k :: from <= k < r.value.start ==> PairAt(t, k, open, close).None?
    ensures r.None? ==> forall k :: from <= k <= |t| ==> PairAt(t, k, open, close).None?
    decreases |t| - from
  {
    var here := PairAt(t, from, open, close);
    if here.Some? || from == |t| then here else FirstPair(t, from + 1, open, close)
  }

  // ---------------------------------------------------------------------
  // The tag patterns

  /** `L \s* noparse \s* R` */
  function NoparseOpen(d: Delims): seq<Atom> {
    [Lit(d.left), Spaces, Lit("noparse"), Spaces, Lit(d.right)]
  }

  /** `L \s* / \s* noparse \s* R` */
  function NoparseClose(d: Delims): seq<Atom> {
    [Lit(d.left), Spaces, Lit("/"), Spaces, Lit("noparse"), Spaces, Lit(d.right)]
  }

  /** `L \s* (\w+) \s+ in \s+ VAR \s* R` */
  function LoopOpen(d: Delims, variable: string): (atoms: seq<Atom>)
    ensures WordCount(atoms) == 1
  {
    var atoms := [Lit(d.left), Spaces, Word, Spaces1, Lit("in"), Spaces1, Lit(variable), Spaces, Lit(d.right)];
    assert WordsFrom(atoms, 9) == 0 && WordsFrom(atoms, 8) == 0 && WordsFrom(atoms, 7) == 0;
    assert WordsFrom(atoms, 6) == 0 && WordsFrom(atoms, 5) == 0 && WordsFrom(atoms, 4) == 0;
    assert WordsFrom(atoms, 3) == 0 && WordsFrom(atoms, 2) == 1 && WordsFrom(atoms, 1) == 1;
    WordCountBack(atoms, 0, 9);
    atoms
  }

  /** `L \s* end \s+ VAR \s* R` */
  function LoopClose(d: Delims, variable: string): seq<Atom> {
    [Lit(d.left), Spaces, Lit("end"), Spaces1, Lit(variable), Spaces, Lit(d.right)]
  }

  /** `L \s* VAR \s* R` */
  function LegacyOpen(d: Delims, variable: string): seq<Atom> {
    [Lit(d.left), Spaces, Lit(variable), Spaces, Lit(d.right)]
  }

  /** `L \s* /VAR \s* R` */
  function LegacyClose(d: Delims, variable: string): seq<Atom> {
    [Lit(d.left), Spaces, Lit("/" + variable), Spaces, Lit(d.right)]
  }

  /** `L \s* block \s+ (\w+) \s* R` */
  function BlockOpen(d: Delims): (atoms: seq<Atom>)
    ensures WordCount(atoms) == 1
  {
    var atoms := [Lit(d.left), Spaces, Lit("block"), Spaces1, Word, Spaces, Lit(d.right)];
    assert WordsFrom(atoms, 7) == 0 && WordsFrom(atoms, 6) == 0 && WordsFrom(atoms, 5) == 0;
    assert WordsFrom(atoms, 4) == 1 && WordsFrom(atoms, 3) == 1 && WordsFrom(atoms, 2) == 1;
    assert WordsFrom(atoms, 1) == 1;
    WordCountBack(atoms, 0, 7);
    atoms
  }

  /** `L \s* endblock \s* R` */
  function BlockClose(d: Delims): seq<Atom> {
    [Lit(d.left), Spaces, Lit("endblock"), Spaces, Lit(d.right)]
  }

  /** A pattern that starts with the left delimiter matches nowhere in a text
      that does not contain it. */
  lemma NoLeftNoPair(t: string, from: nat, d: Delims, open: seq<Atom>, close: seq<Atom>)
    requires from <= |t|
    requires |open| > 0 && open[0] == Lit(d.left)
    requires forall j :: 0 <= j <= |t| ==> !OccursAt(t, d.left, j)
    ensures FirstPair(t, from, open, close).None?
  {
  }

  // ---------------------------------------------------------------------
  // Variable tags

  /** The characters a filter list may be written with: `[\w|\s:,-]`. */
  predicate IsFilterChar(c: char) {
    IsWordChar(c) || c == '|' || IsSpace(c) || c == ':' || c == ',' || c == '-'
  }

  /** A variable tag: where it ends, and its filter list when it has one. */
  datatype VarTag = VarTag(end: nat, filters: Option<string>)

  /** The variable tag `L \s* KEY \s* (?:\| \s* ([\w|\s:,-]*) \s*)? R` at `i`.
      The filter list is the longest run of filter characters after the bar
      and its spaces; when no right delimiter follows it, the tag may still
      close right after the key. */
  function VarTagAt(t: string, i: nat, d: Delims, key: string): (r: Option<VarTag>)
    requires i <= |t|
    ensures r.Some? ==> i < r.value.end <= |t|
    ensures r.Some? ==> OccursAt(t, d.left, i) && |d.right| <= r.value.end && OccursAt(t, d.right, r.value.end - |d.right|)
    ensures r.Some? && r.value.filters.Some? ==> forall c :: c in r.value.filters.value ==> IsFilterChar(c)
  {
    match MatchAtoms(t, i, [Lit(d.left), Spaces, Lit(key), Spaces])
    case None => None
    case Some(h) => TagTail(t, h.end, d)
  }

  /** The rest of a variable tag after its key, which ends at `p`: an
      optional bar and filter list, then the right delimiter. */
  function TagTail(t: string, p: nat, d: Delims): (r: Option<VarTag>)
    requires p <= |t|
    ensures r.Some? ==> p < r.value.end <= |t|
    ensures r.Some? ==> |d.right| <= r.value.end && OccursAt(t, d.right, r.value.end - |d.right|)
    ensures r.Some? && r.value.filters.Some? ==> forall c :: c in r.value.filters.value ==> IsFilterChar(c)
  {
    if p < |t| && t[p] == '|' then
      var q := SkipWhile(t, p + 1, IsSpace);
      var e := SkipWhile(t, q, IsFilterChar);
      if OccursAt(t, d.right, e) then Some(VarTag(e + |d.right|, Some(t[q..e])))
      else if OccursAt(t, d.right, p) then Some(VarTag(p + |d.right|, None))
      else None
    else if OccursAt(t, d.right, p) then Some(VarTag(p + |d.right|, None))
    else None
  }

  /** A tag with a bar after its key, whose filter list is followed by the
      right delimiter, is read with that list. */
  lemma ListTag(t: string, i: nat, d: Delims, key: string, p: nat, q: nat, e: nat)
    requires i <= |t|
    requires MatchAtoms(t, i, [Lit(d.left), Spaces, Lit(key), Spaces]) == Some(Hit(p, []))
    requires p < |t| && t[p] == '|'
    requires SkipWhile(t, p + 1, IsSpace) == q && SkipWhile(t, q, IsFilterChar) == e
    requires OccursAt(t, d.right, e)
    ensures VarTagAt(t, i, d, key) == Some(VarTag(e + |d.right|, Some(t[q..e])))
  {
    TailWithList(t, p, d, q, e);
    assert VarTagAt(t, i, d, key) == TagTail(t, p, d);
  }

  lemma TailWithList(t: string, p: nat, d: Delims, q: nat, e: nat)
    requires p < |t| && t[p] == '|'
    requires SkipWhile(t, p + 1, IsSpace) == q && SkipWhile(t, q, IsFilterChar) == e
    requires OccursAt(t, d.right, e)
    ensures q <= e <= |t|
    ensures TagTail(t, p, d) == Some(VarTag(e + |d.right|, Some(t[q..e])))
  {
  }

  /** A tag whose key is followed by the right delimiter, with no bar in
      between, is read without a filter list. */
  lemma BareTag(t: string, i: nat, d: Delims, key: string, p: nat)
    requires i <= |t|
    requires MatchAtoms(t, i, [Lit(d.left), Spaces, Lit(key), Spaces]) == Some(Hit(p, []))
    requires p < |t| && t[p] != '|'
    requires OccursAt(t, d.right, p)
    ensures VarTagAt(t, i, d, key) == Some(VarTag(p + |d.right|, None))
  {
    TailBare(t, p, d);
    assert VarTagAt(t, i, d, key) == TagTail(t, p, d);
  }

  lemma TailBare(t: string, p: nat, d: Delims)
    requires p < |t| && t[p] != '|'
    requires OccursAt(t, d.right, p)
    ensures TagTail(t, p, d) == Some(VarTag(p + |d.right|, None))
  {
  }

  /** A text without the left delimiter holds no variable tag. */
  lemma NoLeftNoVarTag(t: string, d: Delims, key: string)
    requires forall j :: 0 <= j <= |t| ==> !OccursAt(t, d.left, j)
    ensures forall i :: 0 <= i <= |t| ==> VarTagAt(t, i, d, key).None?
  {
  }
}
