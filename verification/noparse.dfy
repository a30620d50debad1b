/** The no-parse guard. Before substitution each region
    `L noparse R ... L /noparse R` is cut out and replaced by the placeholder
    `{{ noparse_k }}` (k counts the regions from 0); the table maps each
    placeholder to the region's inner text. At the end every placeholder is
    replaced by its text again, in table order. */
module NoParse {
  import opened Wrappers
  import opened Text
  import opened Values
  import opened Lexer

  /** A template seen as the protected-region scan sees it: single characters
      outside regions, and whole regions split into opening tag, body and
      closing tag. */
  datatype Piece = Plain(c: char) | Region(openTag: string, body: string, closeTag: string)

  /** The scan a global replacement makes from index `i`: where a region
      starts, it is taken whole and the scan resumes after it; elsewhere one
      character is passed over. */
  function Scan(t: string, d: Delims, i: nat): seq<Piece>
    requires i <= |t|
    decreases |t| - i
  {
    if i == |t| then []
    else
      match PairAt(t, i, NoparseOpen(d), NoparseClose(d))
      case Some(m) =>
        [Region(t[i..m.bodyStart], t[m.bodyStart..m.bodyEnd], t[m.bodyEnd..m.end])] + Scan(t, d, m.end)
      case None => [Plain(t[i])] + Scan(t, d, i + 1)
  }

  /** The text the pieces were cut from. */
  function Original(ps: seq<Piece>): string {
    if ps == [] then ""
    else
      match ps[0]
      case Plain(c) => [c] + Original(ps[1..])
      case Region(o, b, e) => o + b + e + Original(ps[1..])
  }

  /** The text with the `noparse` tags removed and the region bodies kept. */
  function Stripped(ps: seq<Piece>): string {
    if ps == [] then ""
    else
      match ps[0]
      case Plain(c) => [c] + Stripped(ps[1..])
      case Region(_, b, _) => b + Stripped(ps[1..])
  }

  /** The bodies of the regions, in order. */
  function Bodies(ps: seq<Piece>): seq<string> {
    if ps == [] then []
    else
      match ps[0]
      case Plain(_) => Bodies(ps[1..])
      case Region(_, b, _) => [b] + Bodies(ps[1..])
  }

  /** The first piece the scan cuts at `i`, and where the rest starts. */
  lemma ScanAt(t: string, d: Delims, i: nat)
    requires i < |t|
    ensures var m := PairAt(t, i, NoparseOpen(d), NoparseClose(d)); var ps := Scan(t, d, i);
      && ps != []
      && (m.Some? ==> ps[0] == Region(t[i..m.value.bodyStart], t[m.value.bodyStart..m.value.bodyEnd], t[m.value.bodyEnd..m.value.end])
                      && ps[1..] == Scan(t, d, m.value.end))
      && (m.None? ==> ps[0] == Plain(t[i]) && ps[1..] == Scan(t, d, i + 1))
  {
  }

  /** The scan cuts the template into pieces without losing or adding text. */
  lemma {:induction false} ScanCovers(t: string, d: Delims, i: nat)
    requires i <= |t|
    ensures Original(Scan(t, d, i)) == t[i..]
    decreases |t| - i
  {
    if i < |t| {
      ScanAt(t, d, i);
      match PairAt(t, i, NoparseOpen(d), NoparseClose(d))
      case Some(m) =>
        ScanCovers(t, d, m.end);
        SliceFour(t, i, m.bodyStart, m.bodyEnd, m.end);
      case None =>
        ScanCovers(t, d, i + 1);
        assert t[i..] == [t[i]] + t[i + 1..];
    }
  }

  lemma SliceFour(t: string, a: nat, b: nat, c: nat, d: nat)
    requires a <= b <= c <= d <= |t|
    ensures t[a..] == t[a..b] + t[b..c] + t[c..d] + t[d..]
  {
  }

  // ---------------------------------------------------------------------
  // Placeholders

  /** The part every placeholder starts with. */
  const Marker: string := "{{ noparse_"

  /** The placeholder of the k-th region. */
  function Placeholder(k: nat): (p: string)
    ensures |p| >= |Marker| + 4 && p[..|Marker|] == Marker
  {
    Marker + NatToString(k) + " }}"
  }

  /** No placeholder can start inside `s`. */
  predicate MarkerFree(s: string) {
    forall i :: 0 <= i < |s| ==> !OccursAt(s, Marker, i)
  }

  /** The template with the k-th region, counting from `k`, replaced by its
      placeholder. */
  function Extracted(ps: seq<Piece>, k: nat): string {
    if ps == [] then ""
    else
      match ps[0]
      case Plain(c) => [c] + Extracted(ps[1..], k)
      case Region(_, _, _) => Placeholder(k) + Extracted(ps[1..], k + 1)
  }

  /** The table from placeholder to region body, in region order. */
  function Table(ps: seq<Piece>, k: nat): (tb: Dict<string>)
    ensures |tb| == |Bodies(ps)|
  {
    if ps == [] then []
    else
      match ps[0]
      case Plain(_) => Table(ps[1..], k)
      case Region(_, b, _) => [(Placeholder(k), b)] + Table(ps[1..], k + 1)
  }

  /** A region at the front goes out as its placeholder. */
  lemma ExtractedRegion(ps: seq<Piece>, k: nat)
    requires ps != [] && ps[0].Region?
    ensures Extracted(ps, k) == Placeholder(k) + Extracted(ps[1..], k + 1)
    ensures Table(ps, k) == [(Placeholder(k), ps[0].body)] + Table(ps[1..], k + 1)
  {
  }

  /** A character at the front goes out as it is. */
  lemma ExtractedPlain(ps: seq<Piece>, k: nat)
    requires ps != [] && ps[0].Plain?
    ensures Extracted(ps, k) == [ps[0].c] + Extracted(ps[1..], k)
    ensures Table(ps, k) == Table(ps[1..], k)
  {
  }

  /** Restoring: each table entry in order, its placeholder replaced by its text. */
  function RestoreAll(s: string, table: Dict<string>): string
    decreases |table|
  {
    if table == [] then s else RestoreAll(ReplaceAll(s, table[0].0, table[0].1), table[1..])
  }

  /** Entry n of the table is the placeholder `k + n` with the n-th body. */
  lemma {:induction false} TableEntries(ps: seq<Piece>, k: nat)
    ensures |Table(ps, k)| == |Bodies(ps)|
    ensures forall n :: 0 <= n < |Bodies(ps)| ==> Table(ps, k)[n] == (Placeholder(k + n), Bodies(ps)[n])
  {
    if ps != [] {
      TableEntries(ps[1..], if ps[0].Plain? then k else k + 1);
    }
  }

  /** Distinct region numbers have distinct placeholders. */
  lemma PlaceholderInjective(a: nat, b: nat)
    requires Placeholder(a) == Placeholder(b)
    ensures a == b
  {
    var x, y := NatToString(a), NatToString(b);
    assert |x| == |y|;
    assert x == Placeholder(a)[|Marker|..|Marker| + |x|];
    assert y == Placeholder(b)[|Marker|..|Marker| + |y|];
    NatToStringInjective(a, b);
  }

  /** The table is a PHP array: no placeholder is recorded twice. */
  lemma TableKeysUnique(ps: seq<Piece>, k: nat)
    ensures UniqueKeys(Table(ps, k))
  {
    TableEntries(ps, k);
    var tb := Table(ps, k);
    forall i, j | 0 <= i < j < |tb| ensures tb[i].0 != tb[j].0 {
      if tb[i].0 == tb[j].0 {
        PlaceholderInjective(k + i, k + j);
      }
    }
  }

  /** Where a placeholder has an opening brace, and what follows the first two. */
  lemma PlaceholderBraces(q: nat)
    ensures Placeholder(q)[0] == '{' && Placeholder(q)[1] == '{' && Placeholder(q)[2] == ' '
    ensures forall o :: 2 <= o < |Placeholder(q)| ==> Placeholder(q)[o] != '{'
  {
    var p, a := Placeholder(q), NatToString(q);
    forall o | 2 <= o < |p| ensures p[o] != '{' {
      if o < |Marker| {
        assert p[o] == Marker[o];
      } else if o < |Marker| + |a| {
        assert p[o] == a[o - |Marker|];
        assert IsDigit(a[o - |Marker|]);
      } else {
        assert p[o] == " }}"[o - |Marker| - |a|];
      }
    }
  }

  /** A marker cannot start inside a marker-free `x` when what follows `x` is
      nothing or a placeholder's opening braces: the braces in a placeholder
      are its first two characters, and a space comes after them. */
  lemma MarkerNotBefore(x: string, y: string)
    requires MarkerFree(x)
    requires y == [] || (|y| >= 2 && y[0] == '{' && y[1] == '{')
    ensures forall i :: 0 <= i < |x| ==> !OccursAt(x + y, Marker, i)
  {
    var s := x + y;
    assert Marker == "{{" + " noparse_";
    assert '{' !in " noparse_";
    forall i | 0 <= i < |x| ensures !OccursAt(s, Marker, i) {
      if i + |Marker| <= |x| {
        assert s[i..i + |Marker|] == x[i..i + |Marker|];
        assert !OccursAt(x, Marker, i);
        assert s[i..i + |Marker|] != Marker;
      } else if i + |Marker| <= |s| {
        var m := |x| - i;
        var w := s[i..i + |Marker|];
        assert 1 <= m < |Marker|;
        assert w[m] == y[0] == '{';
        if m >= 2 {
          assert Marker[m] == " noparse_"[m - 2];
          assert Marker[m] != '{';
        } else {
          assert w[2] == y[1] == '{';
          assert Marker[2] == ' ';
        }
        assert w != Marker;
      }
    }
  }

  /** A placeholder `q` has no occurrence of another placeholder `j` starting
      inside it, whatever follows it. */
  lemma PlaceholderNoInnerOcc(q: nat, x: string, j: nat)
    requires q != j
    ensures AbsentBefore(Placeholder(q) + x, Placeholder(j), |Placeholder(q)|)
  {
    var s, p, pj := Placeholder(q) + x, Placeholder(q), Placeholder(j);
    var a, b := NatToString(q), NatToString(j);
    var n := |Marker|;
    assert p == Marker + a + " }}" && pj == Marker + b + " }}";
    PlaceholderBraces(q);
    forall o | 0 <= o < |p| ensures !OccursAt(s, pj, o) {
      if o + |pj| <= |s| {
        var w := s[o..o + |pj|];
        if o == 0 {
          if |a| == |b| {
            if a == b {
              NatToStringInjective(q, j);
            }
            assert w == p;
            assert p[n..n + |a|] == a && pj[n..n + |b|] == b;
          } else if |b| < |a| {
            assert w[n + |b|] == a[|b|];
            assert IsDigit(a[|b|]);
            assert pj[n + |b|] == ' ';
          } else {
            assert w[n + |a|] == p[n + |a|] == ' ';
            assert pj[n + |a|] == b[|a|];
            assert IsDigit(b[|a|]);
          }
        } else if o == 1 {
          assert w[1] == p[2] == ' ' && pj[1] == '{';
        } else {
          assert w[0] == p[o] != '{';
          assert pj[0] == '{';
        }
      }
    }
  }

  /** A text that contains placeholder `j` at index `i` contains the marker there. */
  lemma PlaceholderHasMarker(s: string, j: nat, i: nat)
    requires OccursAt(s, Placeholder(j), i)
    ensures OccursAt(s, Marker, i)
  {
    assert s[i..i + |Marker|] == Placeholder(j)[..|Marker|];
  }

  lemma MarkerFreeSuffix(x: string, y: string)
    requires MarkerFree(x + y)
    ensures MarkerFree(y)
  {
    forall i | 0 <= i < |y| ensures !OccursAt(y, Marker, i) {
      if OccursAt(y, Marker, i) {
        assert (x + y)[|x| + i..|x| + i + |Marker|] == y[i..i + |Marker|];
        assert OccursAt(x + y, Marker, |x| + i);
      }
    }
  }

  lemma MarkerFreePrefix(s: string, n: nat)
    requires MarkerFree(s) && n <= |s|
    ensures MarkerFree(s[..n])
  {
    forall i | 0 <= i < n ensures !OccursAt(s[..n], Marker, i) {
      if OccursAt(s[..n], Marker, i) {
        assert s[i..i + |Marker|] == s[..n][i..i + |Marker|];
        assert OccursAt(s, Marker, i);
      }
    }
  }

  // ---------------------------------------------------------------------
  // The round trip

  /** The text midway through restoring: the regions numbered below `j` are
      back, the others are still placeholders. */
  function Mixed(ps: seq<Piece>, k: nat, j: nat): string {
    if ps == [] then ""
    else
      match ps[0]
      case Plain(c) => [c] + Mixed(ps[1..], k, j)
      case Region(_, b, _) => (if k < j then b else Placeholder(k)) + Mixed(ps[1..], k + 1, j)
  }

  /** The part of `Mixed` before its first placeholder. */
  function Front(ps: seq<Piece>, k: nat, j: nat): string {
    if ps == [] then ""
    else
      match ps[0]
      case Plain(c) => [c] + Front(ps[1..], k, j)
      case Region(_, b, _) => if k < j then b + Front(ps[1..], k + 1, j) else ""
  }

  /** Before any region is restored, the midway text is the extracted text. */
  lemma {:induction false} MixedStart(ps: seq<Piece>, k: nat, j: nat)
    requires j <= k
    ensures Mixed(ps, k, j) == Extracted(ps, k)
  {
    if ps != [] {
      MixedStart(ps[1..], if ps[0].Plain? then k else k + 1, j);
    }
  }

  /** Once every region is restored, the midway text is the stripped text. */
  lemma {:induction false} MixedAll(ps: seq<Piece>, k: nat, j: nat)
    requires k + |Bodies(ps)| <= j
    ensures Mixed(ps, k, j) == Stripped(ps)
  {
    if ps != [] {
      MixedAll(ps[1..], if ps[0].Plain? then k else k + 1, j);
    }
  }

  /** The front is a prefix of the stripped text. */
  lemma {:induction false} FrontPrefix(ps: seq<Piece>, k: nat, j: nat)
    ensures |Front(ps, k, j)| <= |Stripped(ps)| && Stripped(ps)[..|Front(ps, k, j)|] == Front(ps, k, j)
  {
    if ps != [] {
      match ps[0]
      case Plain(c) =>
        FrontPrefix(ps[1..], k, j);
      case Region(_, b, _) =>
        if k < j {
          FrontPrefix(ps[1..], k + 1, j);
          assert Stripped(ps) == b + Stripped(ps[1..]);
        }
    }
  }

  /** While `k <= j`, the midway text is its front followed by nothing or by
      placeholder `j`, the first region not yet restored. */
  lemma {:induction false} MixedSplit(ps: seq<Piece>, k: nat, j: nat)
    requires k <= j
    ensures var f, s := Front(ps, k, j), Mixed(ps, k, j);
      |f| <= |s| && s[..|f|] == f && (|s| == |f| || OccursAt(s, Placeholder(j), |f|))
  {
    if ps != [] {
      match ps[0]
      case Plain(c) =>
        MixedSplit(ps[1..], k, j);
        SplitShift([c], Front(ps[1..], k, j), Mixed(ps[1..], k, j), Placeholder(j));
      case Region(_, b, _) =>
        if k < j {
          MixedSplit(ps[1..], k + 1, j);
          SplitShift(b, Front(ps[1..], k + 1, j), Mixed(ps[1..], k + 1, j), Placeholder(j));
        } else {
          var s := Mixed(ps, k, j);
          assert s == Placeholder(j) + Mixed(ps[1..], k + 1, j);
          assert s[..|Placeholder(j)|] == Placeholder(j);
        }
    }
  }

  /** Putting the same text in front of a string and of its prefix keeps the
      prefix, and what follows it, in place. */
  lemma SplitShift(u: string, f: string, s: string, p: string)
    requires |f| <= |s| && s[..|f|] == f && (|s| == |f| || OccursAt(s, p, |f|))
    ensures |u + f| <= |u + s| && (u + s)[..|u + f|] == u + f
    ensures |u + s| == |u + f| || OccursAt(u + s, p, |u + f|)
  {
    if |s| != |f| {
      assert (u + s)[|u + f|..|u + f| + |p|] == s[|f|..|f| + |p|];
    }
  }

  /** No marker starts in the front of the midway text. */
  lemma FrontShielded(ps: seq<Piece>, k: nat, j: nat)
    requires k <= j
    requires MarkerFree(Stripped(ps))
    ensures forall i :: 0 <= i < |Front(ps, k, j)| ==> !OccursAt(Mixed(ps, k, j), Marker, i)
  {
    var f, s := Front(ps, k, j), Mixed(ps, k, j);
    MixedSplit(ps, k, j);
    FrontPrefix(ps, k, j);
    MarkerFreePrefix(Stripped(ps), |f|);
    assert s == f + s[|f|..];
    if |s| > |f| {
      PlaceholderBraces(j);
      assert s[|f|..][0] == Placeholder(j)[0] && s[|f|..][1] == Placeholder(j)[1];
    }
    MarkerNotBefore(f, s[|f|..]);
  }

  /** Replacing placeholder `j` leaves text with only later placeholders unchanged. */
  lemma {:induction false} ExtractedNoOcc(ps: seq<Piece>, k: nat, j: nat, c: string)
    requires j < k
    requires MarkerFree(Stripped(ps))
    ensures ReplaceAll(Extracted(ps, k), Placeholder(j), c) == Extracted(ps, k)
  {
    var s, p := Extracted(ps, k), Placeholder(j);
    if ps != [] {
      match ps[0]
      case Plain(ch) =>
        MarkerFreeSuffix([ch], Stripped(ps[1..]));
        ExtractedNoOcc(ps[1..], k, j, c);
        MixedStart(ps, k, k);
        FrontShielded(ps, k, k);
        if OccursAt(s, p, 0) {
          PlaceholderHasMarker(s, j, 0);
        }
        ReplaceSkip(s, p, c, 1);
        assert s[..1] == [ch] && s[1..] == Extracted(ps[1..], k);
      case Region(_, b, _) =>
        MarkerFreeSuffix(b, Stripped(ps[1..]));
        ExtractedNoOcc(ps[1..], k + 1, j, c);
        var rest := Extracted(ps[1..], k + 1);
        PlaceholderNoInnerOcc(k, rest, j);
        ReplaceSkip(s, p, c, |Placeholder(k)|);
        assert s[..|Placeholder(k)|] == Placeholder(k) && s[|Placeholder(k)|..] == rest;
    }
  }

  /** One round of the restore loop: replacing placeholder `j` by the j-th
      body turns the midway text for `j` into the midway text for `j + 1`. */
  lemma {:induction false} RestoreStep(ps: seq<Piece>, k: nat, j: nat, c: string)
    requires k <= j
    requires MarkerFree(Stripped(ps))
    requires j - k < |Bodies(ps)| ==> c == Bodies(ps)[j - k]
    ensures ReplaceAll(Mixed(ps, k, j), Placeholder(j), c) == Mixed(ps, k, j + 1)
  {
    var s, p := Mixed(ps, k, j), Placeholder(j);
    if ps != [] {
      match ps[0]
      case Plain(ch) =>
        MarkerFreeSuffix([ch], Stripped(ps[1..]));
        RestoreStep(ps[1..], k, j, c);
        FrontShielded(ps, k, j);
        if OccursAt(s, p, 0) {
          PlaceholderHasMarker(s, j, 0);
        }
        ReplaceSkip(s, p, c, 1);
        assert s[..1] == [ch] && s[1..] == Mixed(ps[1..], k, j);
      case Region(_, b, _) =>
        MarkerFreeSuffix(b, Stripped(ps[1..]));
        if k < j {
          RestoreStep(ps[1..], k + 1, j, c);
          FrontShielded(ps, k, j);
          forall i | 0 <= i < |b| ensures !OccursAt(s, p, i) {
            if OccursAt(s, p, i) {
              PlaceholderHasMarker(s, j, i);
            }
          }
          ReplaceSkip(s, p, c, |b|);
          assert s[..|b|] == b && s[|b|..] == Mixed(ps[1..], k + 1, j);
        } else {
          var rest := Mixed(ps[1..], k + 1, j);
          MixedStart(ps[1..], k + 1, j);
          MixedStart(ps[1..], k + 1, j + 1);
          ExtractedNoOcc(ps[1..], k + 1, j, c);
          assert s == p + rest;
          assert s[..|p|] == p && s[|p|..] == rest;
        }
    }
  }

  /** The restore loop from round `j` on yields the stripped text. */
  lemma {:induction false} RestoreFrom(ps: seq<Piece>, j: nat)
    requires j <= |Bodies(ps)|
    requires MarkerFree(Stripped(ps))
    ensures RestoreAll(Mixed(ps, 0, j), Table(ps, 0)[j..]) == Stripped(ps)
    decreases |Bodies(ps)| - j
  {
    TableEntries(ps, 0);
    if j == |Bodies(ps)| {
      MixedAll(ps, 0, j);
    } else {
      var tb := Table(ps, 0);
      assert tb[j..][0] == (Placeholder(j), Bodies(ps)[j]);
      assert tb[j..][1..] == tb[j + 1..];
      RestoreStep(ps, 0, j, Bodies(ps)[j]);
      RestoreFrom(ps, j + 1);
    }
  }

  /** Restoring the extracted template gives the template back with only the
      `noparse` tags removed, provided no text of the template spells the
      start of a placeholder. */
  lemma RoundTrip(t: string, d: Delims)
    requires MarkerFree(Stripped(Scan(t, d, 0)))
    ensures var ps := Scan(t, d, 0);
      RestoreAll(Extracted(ps, 0), Table(ps, 0)) == Stripped(ps)
  {
    var ps := Scan(t, d, 0);
    MixedStart(ps, 0, 0);
    RestoreFrom(ps, 0);
    assert Table(ps, 0)[0..] == Table(ps, 0);
  }

  /** A template without protected regions is extracted unchanged, with an
      empty table. */
  lemma {:induction false} NoRegions(ps: seq<Piece>, k: nat)
    requires Bodies(ps) == []
    ensures Extracted(ps, k) == Original(ps) == Stripped(ps)
    ensures Table(ps, k) == []
  {
    if ps != [] {
      NoRegions(ps[1..], k);
    }
  }
}
