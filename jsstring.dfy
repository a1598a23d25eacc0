/** The ECMAScript string operations the extension relies on: `trim`,
    `indexOf`, `includes`, `startsWith`, `replace` with a string pattern and
    `split` on a one-character separator. Strings are sequences of Unicode
    scalar values. */
module JsString {
  import opened Wrappers

  /** The code points of ECMAScript's WhiteSpace and LineTerminator
      productions: exactly what `trim` strips and what the regular-expression
      class `\s` matches. */
  predicate IsWhitespace(c: char) {
    || c == '\t' || c == '\n' || c == '\U{B}' || c == '\U{C}' || c == '\r' || c == ' '
    || c == '\U{A0}' || c == '\U{1680}' || ('\U{2000}' <= c <= '\U{200A}')
    || c == '\U{2028}' || c == '\U{2029}' || c == '\U{202F}' || c == '\U{205F}'
    || c == '\U{3000}' || c == '\U{FEFF}'
  }

  predicate AllWhitespace(s: string) {
    forall k :: 0 <= k < |s| ==> IsWhitespace(s[k])
  }

  /** Neither end of `s` is whitespace. */
  predicate IsTrimmed(s: string) {
    s == [] || (!IsWhitespace(s[0]) && !IsWhitespace(s[|s| - 1]))
  }

  function TrimStart(s: string): (r: string)
    ensures |r| <= |s| && r == s[|s| - |r|..]
    ensures r == [] || !IsWhitespace(r[0])
    ensures AllWhitespace(s[..|s| - |r|])
  {
    if s != [] && IsWhitespace(s[0]) then
      var r := TrimStart(s[1..]);
      assert s[..|s| - |r|] == [s[0]] + s[1..][..|s| - 1 - |r|];
      r
    else s
  }

  function TrimEnd(s: string): (r: string)
    ensures |r| <= |s| && r == s[..|r|]
    ensures r == [] || !IsWhitespace(r[|r| - 1])
    ensures AllWhitespace(s[|r|..])
  {
    if s != [] && IsWhitespace(s[|s| - 1]) then
      var r := TrimEnd(s[..|s| - 1]);
      assert s[|r|..] == s[..|s| - 1][|r|..] + [s[|s| - 1]];
      r
    else s
  }

  /** `s` is `r` with whitespace before and after it, `i` characters of it before. */
  predicate TrimmedAt(s: string, r: string, i: int) {
    0 <= i && i + |r| <= |s| && r == s[i..i + |r|]
    && AllWhitespace(s[..i]) && AllWhitespace(s[i + |r|..])
  }

  /** `String.prototype.trim`: the longest slice of `s` that neither starts nor
      ends with whitespace, everything around it being whitespace. */
  function Trim(s: string): (r: string)
    ensures IsTrimmed(r) && |r| <= |s|
    ensures exists i :: TrimmedAt(s, r, i)
    ensures IsTrimmed(s) ==> r == s
  {
    TrimBothEnds(s);
    TrimEnd(TrimStart(s))
  }

  lemma TrimBothEnds(s: string)
    ensures TrimmedAt(s, TrimEnd(TrimStart(s)), |s| - |TrimStart(s)|)
  {
    TrimEndAfter(s, |s| - |TrimStart(s)|);
  }

  /** Trimming the end of what follows a whitespace prefix leaves whitespace
      on both sides. */
  lemma TrimEndAfter(s: string, i: int)
    requires 0 <= i <= |s| && AllWhitespace(s[..i])
    ensures TrimmedAt(s, TrimEnd(s[i..]), i)
  {
    var r := TrimEnd(s[i..]);
    var b := s[i..][|r|..];
    assert s == s[..i] + r + b;
    TrimmedAtPieces(s[..i], r, b);
  }

  lemma TrimmedAtPieces(a: string, r: string, b: string)
    requires AllWhitespace(a) && AllWhitespace(b)
    ensures TrimmedAt(a + r + b, r, |a|)
  {
    var s := a + r + b;
    assert s[..|a|] == a;
    assert s[|a|..|a| + |r|] == r;
    assert s[|a| + |r|..] == b;
  }

  /** Every character that survives trimming was in the input. */
  lemma TrimKeepsCharacters(s: string, c: char)
    requires c !in s
    ensures c !in Trim(s)
  {
    var r := Trim(s);
    var i :| TrimmedAt(s, r, i);
    forall k | 0 <= k < |r| ensures r[k] != c {
      assert r[k] == s[i + k];
    }
  }

  /** Trimming whitespace leaves nothing. */
  lemma {:induction false} TrimStartAllWhitespace(s: string)
    requires AllWhitespace(s)
    ensures TrimStart(s) == []
  {
    if s != [] {
      TrimStartAllWhitespace(s[1..]);
    }
  }

  lemma TrimAllWhitespace(s: string)
    requires AllWhitespace(s)
    ensures Trim(s) == []
  {
    TrimStartAllWhitespace(s);
  }

  lemma {:induction false} TrimStartAfterWhitespace(w: string, t: string)
    requires AllWhitespace(w) && (t == [] || !IsWhitespace(t[0]))
    ensures TrimStart(w + t) == t
  {
    if w != [] {
      assert (w + t)[1..] == w[1..] + t;
      TrimStartAfterWhitespace(w[1..], t);
    } else {
      assert w + t == t;
    }
  }

  /** Trimming a string that is whitespace followed by a trimmed string gives
      the trimmed string. */
  lemma TrimAfterWhitespace(w: string, t: string)
    requires AllWhitespace(w) && IsTrimmed(t)
    ensures Trim(w + t) == t
  {
    TrimStartAfterWhitespace(w, t);
  }

  /** `p` occurs in `s` starting at position `i`. */
  predicate OccursAt(s: string, p: string, i: int) {
    0 <= i && i + |p| <= |s| && s[i..i + |p|] == p
  }

  lemma OccursAtShift(s: string, p: string, j: int)
    requires s != [] && 0 <= j
    ensures OccursAt(s, p, j + 1) <==> OccursAt(s[1..], p, j)
  {
    if 0 <= j && j + 1 + |p| <= |s| {
      assert s[1..][j..j + |p|] == s[j + 1..j + 1 + |p|];
    }
  }

  /** `s.indexOf(p)`: the first position at which `p` occurs in `s`, or none. */
  function IndexOf(s: string, p: string): (r: Option<nat>)
    ensures r.Some? ==> OccursAt(s, p, r.value)
    ensures r.Some? ==> forall j :: 0 <= j < r.value ==> !OccursAt(s, p, j)
    ensures r.None? ==> forall j :: !OccursAt(s, p, j)
    decreases |s|
  {
    if |p| > |s| then None
    else if s[..|p|] == p then Some(0)
    else
      var rest := IndexOf(s[1..], p);
      assert forall j :: 0 <= j ==> (OccursAt(s, p, j + 1) <==> OccursAt(s[1..], p, j)) by {
        forall j | 0 <= j ensures OccursAt(s, p, j + 1) <==> OccursAt(s[1..], p, j) {
          OccursAtShift(s, p, j);
        }
      }
      assert forall j :: OccursAt(s, p, j) ==> j == 0 || OccursAt(s[1..], p, j - 1) by {
        forall j | OccursAt(s, p, j) ensures j == 0 || OccursAt(s[1..], p, j - 1) {
          if j != 0 { OccursAtShift(s, p, j - 1); }
        }
      }
      match rest
      case None => None
      case Some(k) => Some(k + 1)
  }

  /** `s.includes(p)`. */
  predicate Contains(s: string, p: string) {
    IndexOf(s, p).Some?
  }

  lemma ContainsIff(s: string, p: string)
    ensures Contains(s, p) <==> exists j :: OccursAt(s, p, j)
  {
  }

  /** Every string includes itself and the empty string; the empty string
      includes only the empty string. */
  lemma ContainsBasics(s: string, p: string)
    ensures Contains(s, s) && Contains(s, [])
    ensures Contains([], p) <==> p == []
  {
    assert OccursAt(s, s, 0);
    assert OccursAt(s, [], 0);
  }

  /** An occurrence stays an occurrence when text is added on either side. */
  lemma ContainsExtend(u: string, s: string, v: string, p: string)
    requires Contains(s, p)
    ensures Contains(u + s + v, p)
  {
    ContainsIff(s, p);
    var j :| OccursAt(s, p, j);
    assert (u + s + v)[|u| + j..|u| + j + |p|] == s[j..j + |p|];
    assert OccursAt(u + s + v, p, |u| + j);
    ContainsIff(u + s + v, p);
  }

  /** `s.startsWith(p)`. */
  predicate StartsWith(s: string, p: string) {
    |p| <= |s| && s[..|p|] == p
  }

  /** `s.replace(p, '')` with a string pattern: the first occurrence of `p`
      is removed and nothing else changes. */
  function ReplaceFirst(s: string, p: string): (r: string)
    ensures |r| <= |s|
  {
    match IndexOf(s, p)
    case None => s
    case Some(i) => s[..i] + s[i + |p|..]
  }

  /** `ReplaceFirst` removes exactly the first occurrence of `p`, and leaves a
      string without one unchanged. */
  lemma ReplaceFirstRemovesFirstOccurrence(s: string, p: string, i: int)
    ensures (forall j :: !OccursAt(s, p, j)) ==> ReplaceFirst(s, p) == s
    ensures OccursAt(s, p, i) && (forall j :: 0 <= j < i ==> !OccursAt(s, p, j))
            ==> ReplaceFirst(s, p) == s[..i] + s[i + |p|..] && |ReplaceFirst(s, p)| == |s| - |p|
  {
    match IndexOf(s, p)
    case None =>
      assert !OccursAt(s, p, i);
    case Some(k) =>
      assert OccursAt(s, p, k);
      if OccursAt(s, p, i) && (forall j :: 0 <= j < i ==> !OccursAt(s, p, j)) {
        assert !(k < i);
        assert !(i < k);
      }
  }

  /** The number of times `c` appears in `s`. */
  function Count(s: string, c: char): (n: nat)
    ensures n == 0 <==> c !in s
    ensures n <= |s|
  {
    if s == [] then 0 else (if s[0] == c then 1 else 0) + Count(s[1..], c)
  }

  lemma {:induction false} CountAppend(s: string, t: string, c: char)
    ensures Count(s + t, c) == Count(s, c) + Count(t, c)
  {
    if s != [] {
      assert (s + t)[1..] == s[1..] + t;
      CountAppend(s[1..], t, c);
    } else {
      assert s + t == t;
    }
  }

  /** One occurrence of `c` between two pieces adds one to their counts. */
  lemma CountAround(x: string, y: string, c: char)
    ensures Count(x + [c] + y, c) == Count(x, c) + 1 + Count(y, c)
  {
    CountAppend(x, [c] + y, c);
    assert x + [c] + y == x + ([c] + y);
    assert ([c] + y)[1..] == y;
  }

  /** `parts.join(sep)` for a one-character separator. */
  function Join(parts: seq<string>, sep: char): string {
    if parts == [] then []
    else if |parts| == 1 then parts[0]
    else parts[0] + [sep] + Join(parts[1..], sep)
  }

  /** `s.split(sep)` for a one-character separator: one more piece than there
      are separators, no piece holding a separator, and the pieces joined
      again give back `s`. */
  function Split(s: string, sep: char): (r: seq<string>)
    ensures |r| == Count(s, sep) + 1
    ensures forall k :: 0 <= k < |r| ==> sep !in r[k]
    ensures Join(r, sep) == s
  {
    if s == [] then [[]]
    else
      var rest := Split(s[1..], sep);
      if s[0] == sep then
        assert s == [sep] + s[1..];
        [[]] + rest
      else
        var r := [[s[0]] + rest[0]] + rest[1..];
        JoinPrepend(s[0], rest, sep);
        assert s == [s[0]] + s[1..];
        r
  }

  /** Putting a character in front of the first piece puts it in front of the
      joined text. */
  lemma JoinPrepend(c: char, parts: seq<string>, sep: char)
    requires parts != []
    ensures Join([[c] + parts[0]] + parts[1..], sep) == [c] + Join(parts, sep)
  {
    var r := [[c] + parts[0]] + parts[1..];
    assert r[0] == [c] + parts[0] && r[1..] == parts[1..];
  }

  /** Splitting text that starts with a separator-free piece and a separator. */
  lemma {:induction false} SplitAfterPiece(x: string, y: string, sep: char)
    requires sep !in x
    ensures Split(x + [sep] + y, sep) == [x] + Split(y, sep)
  {
    if x == [] {
      assert x + [sep] + y == [sep] + y;
      assert ([sep] + y)[1..] == y;
    } else {
      var s := x + [sep] + y;
      assert s[0] == x[0] && s[1..] == x[1..] + [sep] + y;
      SplitAfterPiece(x[1..], y, sep);
      var rest := Split(s[1..], sep);
      assert rest[0] == x[1..] && rest[1..] == Split(y, sep);
      assert [x[0]] + x[1..] == x;
      assert Split(s, sep) == [[s[0]] + rest[0]] + rest[1..];
    }
  }

  /** Splitting separator-free text gives it back as the only piece. */
  lemma {:induction false} SplitNoSeparator(x: string, sep: char)
    requires sep !in x
    ensures Split(x, sep) == [x]
  {
    assert Count(x, sep) == 0;
  }

  /** `split` undoes `join` for non-empty lists of separator-free pieces. */
  lemma {:induction false} SplitJoin(parts: seq<string>, sep: char)
    requires parts != []
    requires forall k :: 0 <= k < |parts| ==> sep !in parts[k]
    ensures Split(Join(parts, sep), sep) == parts
  {
    if |parts| == 1 {
      SplitNoSeparator(parts[0], sep);
    } else {
      SplitJoin(parts[1..], sep);
      SplitAfterPiece(parts[0], Join(parts[1..], sep), sep);
      assert [parts[0]] + parts[1..] == parts;
    }
  }
}
