/** The string primitives the two transforms are built from, each stated with
    the meaning Python gives it: `in` on strings, `startswith`, `endswith`,
    `strip`, `split('\n')`, `replace`, `"".join` and `str(n)` for a natural. */
module Text {

  /** Python's `str.isspace` for one character, which is also what `\s`
      matches in a `re` pattern over `str`. */
  predicate IsWs(c: char)
    ensures IsWs(c) ==> !IsDigit(c) && c != '.' && c != '#'
  {
    || c == ' '
    || ('\t' <= c <= '\r')
    || ('\U{1C}' <= c <= '\U{1F}')
    || c == '\U{85}' || c == '\U{A0}' || c == '\U{1680}'
    || ('\U{2000}' <= c <= '\U{200A}')
    || c == '\U{2028}' || c == '\U{2029}' || c == '\U{202F}' || c == '\U{205F}'
    || c == '\U{3000}'
  }

  predicate AllWs(s: string) {
    forall i :: 0 <= i < |s| ==> IsWs(s[i])
  }

  /** A decimal digit as `\d` sees it: ASCII and full-width digits. */
  predicate IsDigit(c: char) {
    ('0' <= c <= '9') || ('\U{FF10}' <= c <= '\U{FF19}')
  }

  predicate AllDigits(s: string) {
    forall i :: 0 <= i < |s| ==> IsDigit(s[i])
  }

  predicate StartsWith(s: string, prefix: string) {
    |prefix| <= |s| && s[..|prefix|] == prefix
  }

  predicate EndsWith(s: string, suffix: string) {
    |suffix| <= |s| && s[|s| - |suffix|..] == suffix
  }

  /** `pat` stands in `s` at index `i`. */
  predicate OccursAt(pat: string, s: string, i: int) {
    0 <= i && i + |pat| <= |s| && s[i..i + |pat|] == pat
  }

  /** A string stands at the end of itself appended to anything. */
  lemma OccursAtEnd(a: string, b: string)
    ensures OccursAt(b, a + b, |a|)
  {
    assert (a + b)[|a|..|a| + |b|] == b;
  }

  /** A string stands at the start of itself followed by anything. */
  lemma OccursAtStart(a: string, b: string)
    ensures OccursAt(a, a + b, 0)
  {
    assert (a + b)[..|a|] == a;
  }

  /** An occurrence survives putting text in front. */
  lemma OccursPrepend(pat: string, a: string, t: string)
    requires Occurs(pat, t)
    ensures Occurs(pat, a + t)
  {
    var i :| 0 <= i <= |t| - |pat| && OccursAt(pat, t, i);
    assert (a + t)[|a| + i..|a| + i + |pat|] == t[i..i + |pat|];
    assert OccursAt(pat, a + t, |a| + i);
  }

  /** An occurrence survives appending text after it. */
  lemma OccursExtend(pat: string, s: string, t: string, i: int)
    requires OccursAt(pat, s, i)
    ensures OccursAt(pat, s + t, i)
  {
    assert (s + t)[i..i + |pat|] == s[i..i + |pat|];
  }

  /** Python's `pat in s` on strings. */
  predicate Occurs(pat: string, s: string) {
    exists i | 0 <= i <= |s| - |pat| :: OccursAt(pat, s, i)
  }

  // ---------------------------------------------------------------------------
  // str.strip()

  /** The end of the run of whitespace that starts at `i`. */
  function LeadingEnd(s: string, i: nat): (e: nat)
    requires i <= |s|
    ensures i <= e <= |s|
    ensures forall k :: i <= k < e ==> IsWs(s[k])
    ensures e == |s| || !IsWs(s[e])
    decreases |s| - i
  {
    if i == |s| || !IsWs(s[i]) then i else LeadingEnd(s, i + 1)
  }

  /** The start of the run of whitespace that ends at `j`. */
  function TrailingStart(s: string, j: nat): (b: nat)
    requires j <= |s|
    ensures b <= j
    ensures forall k :: b <= k < j ==> IsWs(s[k])
    ensures b == 0 || !IsWs(s[b - 1])
  {
    if j == 0 || !IsWs(s[j - 1]) then j else TrailingStart(s, j - 1)
  }

  /** `s.lstrip()`: what is left after the leading whitespace. */
  function TrimLeft(s: string): (r: string)
    ensures |r| <= |s| && r == s[|s| - |r|..]
    ensures AllWs(s[..|s| - |r|])
    ensures r == [] || !IsWs(r[0])
  {
    s[LeadingEnd(s, 0)..]
  }

  /** `s.rstrip()`: what is left before the trailing whitespace. */
  function TrimRight(s: string): (r: string)
    ensures |r| <= |s| && r == s[..|r|]
    ensures AllWs(s[|r|..])
    ensures r == [] || !IsWs(r[|r| - 1])
  {
    s[..TrailingStart(s, |s|)]
  }

  /** `s` is whitespace, then `r` from index `p` on, then whitespace. */
  predicate PaddedAt(s: string, r: string, p: nat) {
    p + |r| <= |s| && AllWs(s[..p]) && s[p..p + |r|] == r && AllWs(s[p + |r|..])
  }

  /** `s.strip()`: `s` with the whitespace at both ends removed; what is left
      has no whitespace at either end and is empty exactly when `s` is all
      whitespace. */
  function Strip(s: string): (r: string)
    ensures exists p: nat :: PaddedAt(s, r, p)
    ensures Occurs(r, s)
    ensures r == [] <==> AllWs(s)
    ensures r != [] ==> !IsWs(r[0]) && !IsWs(r[|r| - 1])
  {
    var t := TrimLeft(s);
    var r := TrimRight(t);
    StripPadded(s);
    assert OccursAt(r, s, |s| - |t|);
    r
  }

  /** Both trims together remove whitespace at the two ends, and leave
      nothing only from an all-whitespace string. */
  lemma StripPadded(s: string)
    ensures PaddedAt(s, TrimRight(TrimLeft(s)), |s| - |TrimLeft(s)|)
    ensures TrimRight(TrimLeft(s)) == [] ==> AllWs(s)
  {
    var t := TrimLeft(s);
    var r := TrimRight(t);
    TakeOfDrop(s, |s| - |t|, |r|);
    DropOfDrop(s, |s| - |t|, |r|);
    if r == [] {
      assert t[|r|..] == t;
      AllWsJoin(s, |s| - |t|);
    }
  }

  /** Taking `n` after dropping `i` is the slice from `i` of length `n`. */
  lemma TakeOfDrop<T>(s: seq<T>, i: nat, n: nat)
    requires i + n <= |s|
    ensures s[i..][..n] == s[i..i + n]
  {
  }

  /** Dropping `n` after dropping `i` drops `i + n`. */
  lemma DropOfDrop<T>(s: seq<T>, i: nat, n: nat)
    requires i + n <= |s|
    ensures s[i..][n..] == s[i + n..]
  {
  }

  /** Two all-whitespace halves make an all-whitespace string. */
  lemma AllWsJoin(s: string, k: nat)
    requires k <= |s| && AllWs(s[..k]) && AllWs(s[k..])
    ensures AllWs(s)
  {
    forall i | 0 <= i < |s| ensures IsWs(s[i]) {
      if i < k {
        assert s[i] == s[..k][i];
      } else {
        assert s[i] == s[k..][i - k];
      }
    }
  }

  // ---------------------------------------------------------------------------
  // str.split(sep) for a one-character separator, and its inverse

  /** `s.split(sep)`: the pieces between separators, always at least one. */
  function Split(s: string, sep: char): (r: seq<string>)
    ensures |r| >= 1
    ensures forall k :: 0 <= k < |r| ==> sep !in r[k]
  {
    if |s| == 0 then [""]
    else
      var rest := Split(s[1..], sep);
      if s[0] == sep then [""] + rest
      else [[s[0]] + rest[0]] + rest[1..]
  }

  /** Every piece of all-whitespace text is all whitespace. */
  lemma {:induction false} SplitBlank(s: string, sep: char)
    requires AllWs(s)
    ensures forall k :: 0 <= k < |Split(s, sep)| ==> AllWs(Split(s, sep)[k])
    decreases |s|
  {
    if |s| > 0 {
      assert forall j :: 0 <= j < |s[1..]| ==> s[1..][j] == s[j + 1];
      SplitBlank(s[1..], sep);
      var rest := Split(s[1..], sep);
      if s[0] != sep {
        var head := [s[0]] + rest[0];
        forall j | 0 <= j < |head| ensures IsWs(head[j]) {
          if j > 0 {
            assert head[j] == rest[0][j - 1];
          }
        }
      }
    }
  }

  /** `sep.join(parts)`. */
  function JoinWith(parts: seq<string>, sep: char): string
    requires |parts| >= 1
  {
    if |parts| == 1 then parts[0]
    else parts[0] + [sep] + JoinWith(parts[1..], sep)
  }

  /** Joining the pieces of a split gives back the string. */
  lemma {:induction false} SplitThenJoin(s: string, sep: char)
    ensures JoinWith(Split(s, sep), sep) == s
  {
    if |s| > 0 {
      var rest := Split(s[1..], sep);
      SplitThenJoin(s[1..], sep);
      if s[0] == sep {
        assert Split(s, sep)[1..] == rest;
      } else {
        var r := Split(s, sep);
        assert r[1..] == rest[1..];
        if |rest| > 1 {
          assert JoinWith(rest, sep) == rest[0] + [sep] + JoinWith(rest[1..], sep);
        }
      }
    }
  }

  /** Splitting a join of separator-free pieces gives back the pieces. */
  lemma {:induction false} JoinThenSplit(parts: seq<string>, sep: char)
    requires |parts| >= 1
    requires forall k :: 0 <= k < |parts| ==> sep !in parts[k]
    ensures Split(JoinWith(parts, sep), sep) == parts
  {
    if |parts| == 1 {
      SplitFree(parts[0], sep);
    } else {
      JoinThenSplit(parts[1..], sep);
      SplitPrefix(parts[0], [sep] + JoinWith(parts[1..], sep), sep);
      assert parts[0] + [sep] + JoinWith(parts[1..], sep)
          == parts[0] + ([sep] + JoinWith(parts[1..], sep));
      var tail := [sep] + JoinWith(parts[1..], sep);
      assert tail[1..] == JoinWith(parts[1..], sep);
      assert Split(tail, sep) == [""] + parts[1..];
      assert parts[0] + "" == parts[0];
      assert [parts[0]] + parts[1..] == parts;
    }
  }

  /** A string without the separator splits into itself. */
  lemma {:induction false} SplitFree(s: string, sep: char)
    requires sep !in s
    ensures Split(s, sep) == [s]
  {
    if |s| > 0 {
      SplitFree(s[1..], sep);
      assert [s[0]] + s[1..] == s;
    }
  }

  /** Splitting at a separator splits the two sides independently. */
  lemma {:induction false} SplitAtSeparator(a: string, b: string, sep: char)
    ensures Split(a + [sep] + b, sep) == Split(a, sep) + Split(b, sep)
  {
    if |a| == 0 {
      assert a + [sep] + b == [sep] + b;
      assert ([sep] + b)[1..] == b;
    } else {
      SplitAtSeparator(a[1..], b, sep);
      SplitAtSeparatorCons(a, b, sep);
    }
  }

  /** The step of `SplitAtSeparator` for a non-empty left side. */
  lemma SplitAtSeparatorCons(a: string, b: string, sep: char)
    requires |a| > 0
    requires Split(a[1..] + [sep] + b, sep) == Split(a[1..], sep) + Split(b, sep)
    ensures Split(a + [sep] + b, sep) == Split(a, sep) + Split(b, sep)
  {
    var x := a + [sep] + b;
    assert x[0] == a[0] && x[1..] == a[1..] + [sep] + b;
    if a[0] == sep {
      AppendAssoc([""], Split(a[1..], sep), Split(b, sep));
    } else {
      FuseHead([a[0]], Split(a[1..], sep), Split(b, sep));
    }
  }

  /** Fusing a prefix into the first piece commutes with appending pieces. */
  lemma FuseHead(c: string, ra: seq<string>, rb: seq<string>)
    requires |ra| >= 1
    ensures [c + (ra + rb)[0]] + (ra + rb)[1..] == ([c + ra[0]] + ra[1..]) + rb
  {
    assert (ra + rb)[1..] == ra[1..] + rb;
  }

  /** A separator-free head fuses with the first piece of what follows. */
  lemma {:induction false} SplitPrefix(a: string, b: string, sep: char)
    requires sep !in a
    ensures var r := Split(b, sep);
            Split(a + b, sep) == [a + r[0]] + r[1..]
  {
    if |a| > 0 {
      SplitPrefix(a[1..], b, sep);
      assert (a + b)[1..] == a[1..] + b;
      assert [a[0]] + (a[1..] + Split(b, sep)[0]) == a + Split(b, sep)[0];
    } else {
      var r := Split(b, sep);
      assert a + b == b;
      assert a + r[0] == r[0];
      assert [r[0]] + r[1..] == r;
    }
  }

  // ---------------------------------------------------------------------------
  // str.replace(pat, rep) for a non-empty pattern

  /** `s.replace(pat, rep)`: every occurrence of `pat`, found left to right
      without overlap, is replaced by `rep`. */
  function ReplaceAll(s: string, pat: string, rep: string): (r: string)
    requires |pat| > 0
    ensures rep == pat ==> r == s
  {
    ReplaceFromSelf(s, pat, 0);
    ReplaceFrom(s, pat, rep, 0)
  }

  /** Replacing the pattern by itself copies the rest of `s`. */
  lemma {:induction false} ReplaceFromSelf(s: string, pat: string, k: nat)
    requires |pat| > 0 && k <= |s|
    ensures ReplaceFrom(s, pat, pat, k) == s[k..]
    decreases |s| - k
  {
    if |s| - k < |pat| {
    } else if OccursAt(pat, s, k) {
      ReplaceFromSelf(s, pat, k + |pat|);
      assert s[k..] == s[k..k + |pat|] + s[k + |pat|..];
    } else {
      ReplaceFromSelf(s, pat, k + 1);
      assert s[k..] == [s[k]] + s[k + 1..];
    }
  }

  /** The scan of `s.replace(pat, rep)` from index `k` on. */
  function ReplaceFrom(s: string, pat: string, rep: string, k: nat): string
    requires |pat| > 0 && k <= |s|
    decreases |s| - k
  {
    if |s| - k < |pat| then s[k..]
    else if OccursAt(pat, s, k) then rep + ReplaceFrom(s, pat, rep, k + |pat|)
    else [s[k]] + ReplaceFrom(s, pat, rep, k + 1)
  }

  /** A string in which the pattern does not occur is left as it is. */
  lemma ReplaceAllAbsent(s: string, pat: string, rep: string)
    requires |pat| > 0 && !Occurs(pat, s)
    ensures ReplaceAll(s, pat, rep) == s
  {
    ReplaceFromAbsent(s, pat, rep, 0);
  }

  /** Past the last occurrence the scan copies the rest of `s`. */
  lemma {:induction false} ReplaceFromAbsent(s: string, pat: string, rep: string, k: nat)
    requires |pat| > 0 && k <= |s|
    requires forall j :: k <= j ==> !OccursAt(pat, s, j)
    ensures ReplaceFrom(s, pat, rep, k) == s[k..]
    decreases |s| - k
  {
    if |s| - k >= |pat| {
      ReplaceFromAbsent(s, pat, rep, k + 1);
      assert [s[k]] + s[k + 1..] == s[k..];
    }
  }

  /** The leftmost occurrence at or after `k` is replaced and the scan resumes
      after it: the text before it is copied unchanged. */
  lemma {:induction false} ReplaceAllLeftmost(s: string, pat: string, rep: string, k: nat, i: nat)
    requires |pat| > 0 && k <= i && OccursAt(pat, s, i)
    requires forall j :: k <= j < i ==> !OccursAt(pat, s, j)
    ensures ReplaceFrom(s, pat, rep, k) == s[k..i] + rep + ReplaceFrom(s, pat, rep, i + |pat|)
    decreases i - k
  {
    if k < i {
      ReplaceAllLeftmost(s, pat, rep, k + 1, i);
      ReplaceFromCons(s, pat, rep, k, i, ReplaceFrom(s, pat, rep, i + |pat|));
    } else {
      ReplaceFromHit(s, pat, rep, k);
      assert s[k..i] + rep == rep;
    }
  }

  /** One step of the scan before the leftmost occurrence. */
  lemma ReplaceFromCons(s: string, pat: string, rep: string, k: nat, i: nat, tail: string)
    requires |pat| > 0 && k < i && i + |pat| <= |s| && !OccursAt(pat, s, k)
    requires ReplaceFrom(s, pat, rep, k + 1) == s[k + 1..i] + rep + tail
    ensures ReplaceFrom(s, pat, rep, k) == s[k..i] + rep + tail
  {
    ReplaceFromSkip(s, pat, rep, k);
    AppendAssoc([s[k]], s[k + 1..i] + rep, tail);
    AppendAssoc([s[k]], s[k + 1..i], rep);
    assert [s[k]] + s[k + 1..i] == s[k..i];
  }

  lemma AppendAssoc<T>(a: seq<T>, b: seq<T>, c: seq<T>)
    ensures a + (b + c) == (a + b) + c
  {
  }

  /** Where the pattern starts, it is replaced and the scan skips it. */
  lemma ReplaceFromHit(s: string, pat: string, rep: string, k: nat)
    requires |pat| > 0 && OccursAt(pat, s, k)
    ensures ReplaceFrom(s, pat, rep, k) == rep + ReplaceFrom(s, pat, rep, k + |pat|)
  {
  }

  /** Where the pattern does not start, the character is copied. */
  lemma ReplaceFromSkip(s: string, pat: string, rep: string, k: nat)
    requires |pat| > 0 && k < |s| && !OccursAt(pat, s, k)
    ensures ReplaceFrom(s, pat, rep, k) == [s[k]] + ReplaceFrom(s, pat, rep, k + 1)
  {
    if |s| - k < |pat| {
      assert s[k..] == [s[k]] + s[k + 1..];
    }
  }

  /** Where no occurrence starts in `[k, e)`, the scan copies that stretch. */
  lemma {:induction false} ReplaceFromCopies(s: string, pat: string, rep: string, k: nat, e: nat)
    requires |pat| > 0 && k <= e <= |s|
    requires forall q :: k <= q < e ==> !OccursAt(pat, s, q)
    ensures ReplaceFrom(s, pat, rep, k) == s[k..e] + ReplaceFrom(s, pat, rep, e)
    decreases e - k
  {
    if k < e {
      ReplaceFromCopies(s, pat, rep, k + 1, e);
      ReplaceFromCopyStep(s, pat, rep, k, e);
    } else {
      assert s[k..e] == [];
    }
  }

  /** One step of `ReplaceFromCopies`. */
  lemma ReplaceFromCopyStep(s: string, pat: string, rep: string, k: nat, e: nat)
    requires |pat| > 0 && k < e <= |s| && !OccursAt(pat, s, k)
    requires ReplaceFrom(s, pat, rep, k + 1) == s[k + 1..e] + ReplaceFrom(s, pat, rep, e)
    ensures ReplaceFrom(s, pat, rep, k) == s[k..e] + ReplaceFrom(s, pat, rep, e)
  {
    ReplaceFromSkip(s, pat, rep, k);
    AppendAssoc([s[k]], s[k + 1..e], ReplaceFrom(s, pat, rep, e));
    assert [s[k]] + s[k + 1..e] == s[k..e];
  }

  /** An occurrence of `w` at `p` that no occurrence of the pattern overlaps
      is still in the text the scan produces from any index up to `p`. */
  lemma {:induction false} ReplaceFromKeeps(s: string, pat: string, rep: string, w: string, p: nat, j: nat)
    requires |pat| > 0 && j <= p && OccursAt(w, s, p)
    requires forall q :: OccursAt(pat, s, q) ==> q + |pat| <= p || p + |w| <= q
    ensures Occurs(w, ReplaceFrom(s, pat, rep, j))
    decreases p - j
  {
    if j == p {
      ReplaceFromKeepsHere(s, pat, rep, w, p);
    } else if OccursAt(pat, s, j) {
      ReplaceFromKeeps(s, pat, rep, w, p, j + |pat|);
      ReplaceFromKeepsAfterHit(s, pat, rep, w, j);
    } else {
      ReplaceFromKeeps(s, pat, rep, w, p, j + 1);
      ReplaceFromKeepsAfterSkip(s, pat, rep, w, j);
    }
  }

  /** The scan that reaches an occurrence of `w` no match starts inside
      copies it. */
  lemma ReplaceFromKeepsHere(s: string, pat: string, rep: string, w: string, p: nat)
    requires |pat| > 0 && OccursAt(w, s, p)
    requires forall q :: p <= q < p + |w| ==> !OccursAt(pat, s, q)
    ensures Occurs(w, ReplaceFrom(s, pat, rep, p))
  {
    ReplaceFromCopies(s, pat, rep, p, p + |w|);
    OccursAtStart(w, ReplaceFrom(s, pat, rep, p + |w|));
  }

  /** An occurrence that the scan after a match keeps, the scan from the
      match keeps too. */
  lemma ReplaceFromKeepsAfterHit(s: string, pat: string, rep: string, w: string, j: nat)
    requires |pat| > 0 && OccursAt(pat, s, j)
    requires Occurs(w, ReplaceFrom(s, pat, rep, j + |pat|))
    ensures Occurs(w, ReplaceFrom(s, pat, rep, j))
  {
    ReplaceFromHit(s, pat, rep, j);
    OccursPrepend(w, rep, ReplaceFrom(s, pat, rep, j + |pat|));
  }

  /** An occurrence that the scan after a copied character keeps, the scan
      from that character keeps too. */
  lemma ReplaceFromKeepsAfterSkip(s: string, pat: string, rep: string, w: string, j: nat)
    requires |pat| > 0 && j < |s| && !OccursAt(pat, s, j)
    requires Occurs(w, ReplaceFrom(s, pat, rep, j + 1))
    ensures Occurs(w, ReplaceFrom(s, pat, rep, j))
  {
    ReplaceFromSkip(s, pat, rep, j);
    OccursPrepend(w, [s[j]], ReplaceFrom(s, pat, rep, j + 1));
  }

  /** `s.replace(pat, rep)` keeps every occurrence of `w` that no occurrence
      of `pat` overlaps. */
  lemma ReplaceAllKeeps(s: string, pat: string, rep: string, w: string, p: nat)
    requires |pat| > 0 && OccursAt(w, s, p)
    requires forall q :: OccursAt(pat, s, q) ==> q + |pat| <= p || p + |w| <= q
    ensures Occurs(w, ReplaceAll(s, pat, rep))
  {
    ReplaceFromKeeps(s, pat, rep, w, p, 0);
  }

  /** A string that is exactly the pattern becomes exactly the replacement. */
  lemma ReplaceAllWhole(pat: string, rep: string)
    requires |pat| > 0
    ensures ReplaceAll(pat, pat, rep) == rep
  {
    assert OccursAt(pat, pat, 0);
    assert ReplaceFrom(pat, pat, rep, |pat|) == [];
  }

  /** Replacing a single character by text that lacks it removes every
      occurrence of that character. */
  lemma ReplaceAllRemovesChar(s: string, c: char, rep: string)
    requires c !in rep
    ensures c !in ReplaceAll(s, [c], rep)
  {
    ReplaceFromRemovesChar(s, c, rep, 0);
  }

  lemma {:induction false} ReplaceFromRemovesChar(s: string, c: char, rep: string, k: nat)
    requires c !in rep && k <= |s|
    ensures c !in ReplaceFrom(s, [c], rep, k)
    decreases |s| - k
  {
    if |s| - k >= 1 {
      ReplaceFromRemovesChar(s, c, rep, k + 1);
      if !OccursAt([c], s, k) {
        assert s[k..k + 1] == [s[k]];
      }
    }
  }

  // ---------------------------------------------------------------------------
  // str(n) for a natural number

  function DigitChar(d: nat): (c: char)
    requires d < 10
    ensures '0' <= c <= '9'
  {
    (('0' as int) + d) as char
  }

  /** `str(n)`: the decimal numeral of `n`, no leading zero. */
  function Decimal(n: nat): (r: string)
    ensures |r| >= 1
    ensures forall k :: 0 <= k < |r| ==> '0' <= r[k] <= '9'
    ensures r[0] == '0' ==> n == 0
  {
    if n < 10 then [DigitChar(n)] else Decimal(n / 10) + [DigitChar(n % 10)]
  }

  /** `int(s)` for a string of ASCII digits. */
  function ParseDecimal(s: string): nat
    requires forall k :: 0 <= k < |s| ==> '0' <= s[k] <= '9'
  {
    if s == [] then 0
    else ParseDecimal(s[..|s| - 1]) * 10 + (s[|s| - 1] as int - '0' as int)
  }

  /** Reading back a printed natural gives the natural. */
  lemma {:induction false} DecimalRoundTrip(n: nat)
    ensures ParseDecimal(Decimal(n)) == n
  {
    if n >= 10 {
      DecimalRoundTrip(n / 10);
      var r := Decimal(n);
      assert r[..|r| - 1] == Decimal(n / 10);
    }
  }
}
