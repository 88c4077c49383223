/**
 * The JavaScript string operations the application relies on, over `seq<char>`:
 * `trim`, `toLowerCase`, `includes`, `replace` with a string pattern (with the
 * first-occurrence search it performs), `replace` with a global regular
 * expression made of literal alternatives, `split` on a character class and `join`.
 *
 * Whitespace and case folding are ASCII only: JavaScript's `\s` and `trim` also
 * cover the Unicode space separators, and `toLowerCase` folds all of Unicode.
 */
module Strings {
  import opened Wrappers

  /** The ASCII members of JavaScript's whitespace class `\s`. */
  predicate IsSpace(c: char) {
    c == ' ' || c == '\t' || c == '\n' || c == '\r' || c == '\U{B}' || c == '\U{C}'
  }

  // ---------------------------------------------------------------------------
  // Trimming

  /**
   * Drops characters satisfying `drop` from both ends, as long as there are any;
   * `TrimWhere(s, IsSpace)` is `s.trim()`.
   */
  function TrimWhere(s: string, drop: char -> bool): (r: string)
    ensures |r| <= |s|
    ensures r == [] || (!drop(r[0]) && !drop(r[|r| - 1]))
  {
    if s != [] && drop(s[0]) then TrimWhere(s[1..], drop)
    else if s != [] && drop(s[|s| - 1]) then TrimWhere(s[..|s| - 1], drop)
    else s
  }

  /** JavaScript's `s.trim()`. */
  function Trim(s: string): (r: string)
    ensures r == [] || (!IsSpace(r[0]) && !IsSpace(r[|r| - 1]))
  {
    TrimWhere(s, IsSpace)
  }

  /** Trimming leaves nothing exactly when every character is one it drops. */
  lemma {:induction false} TrimEmptyIff(s: string, drop: char -> bool)
    ensures TrimWhere(s, drop) == [] <==> forall k :: 0 <= k < |s| ==> drop(s[k])
  {
    if s != [] && drop(s[0]) {
      TrimEmptyIff(s[1..], drop);
      assert forall k :: 1 <= k < |s| ==> s[k] == s[1..][k - 1];
    } else if s != [] && drop(s[|s| - 1]) {
      TrimEmptyIff(s[..|s| - 1], drop);
      assert forall k :: 0 <= k < |s| - 1 ==> s[k] == s[..|s| - 1][k];
    }
  }

  /**
   * Trimming removes a prefix and a suffix made only of dropped characters and
   * keeps the middle as it is.
   */
  lemma {:induction false} TrimKeepsMiddle(s: string, drop: char -> bool) returns (i: nat, j: nat)
    ensures i <= j <= |s| && TrimWhere(s, drop) == s[i..j]
    ensures forall k :: 0 <= k < i ==> drop(s[k])
    ensures forall k :: j <= k < |s| ==> drop(s[k])
  {
    if s != [] && drop(s[0]) {
      var i', j' := TrimKeepsMiddle(s[1..], drop);
      i, j := i' + 1, j' + 1;
      assert s[1..][i'..j'] == s[i..j];
      assert forall k :: 1 <= k < |s| ==> s[k] == s[1..][k - 1];
    } else if s != [] && drop(s[|s| - 1]) {
      i, j := TrimKeepsMiddle(s[..|s| - 1], drop);
      assert s[..|s| - 1][i..j] == s[i..j];
      assert forall k :: 0 <= k < |s| - 1 ==> s[k] == s[..|s| - 1][k];
    } else {
      i, j := 0, |s|;
    }
  }

  /** What trimming keeps is a contiguous part of the input. */
  lemma {:induction false} TrimOccurs(s: string, drop: char -> bool)
    ensures Contains(s, TrimWhere(s, drop))
  {
    var r := TrimWhere(s, drop);
    if s != [] && drop(s[0]) {
      TrimOccurs(s[1..], drop);
    } else if s != [] && drop(s[|s| - 1]) {
      TrimOccurs(s[..|s| - 1], drop);
      ContainsInPrefix(s, |s| - 1, r);
    } else {
      assert r <= s;
    }
  }

  // ---------------------------------------------------------------------------
  // Case folding

  function LowerChar(c: char): char {
    if 'A' <= c <= 'Z' then (c as int + 32) as char else c
  }

  /** JavaScript's `s.toLowerCase()`, restricted to ASCII letters. */
  function Lower(s: string): (r: string)
    ensures |r| == |s|
    ensures forall k :: 0 <= k < |s| ==> r[k] == LowerChar(s[k])
  {
    if s == [] then [] else [LowerChar(s[0])] + Lower(s[1..])
  }

  lemma {:induction false} LowerAppend(a: string, b: string)
    ensures Lower(a + b) == Lower(a) + Lower(b)
  {
    if a == [] {
      assert a + b == b;
    } else {
      assert (a + b)[1..] == a[1..] + b;
      LowerAppend(a[1..], b);
    }
  }

  /** Lower-casing twice is lower-casing once. */
  lemma LowerIdempotent(s: string)
    ensures Lower(Lower(s)) == Lower(s)
  {
    assert forall k :: 0 <= k < |s| ==> Lower(Lower(s))[k] == Lower(s)[k];
  }

  /** A string without upper-case ASCII letters is its own lower-case form. */
  lemma {:induction false} LowerKeeps(s: string)
    requires forall c :: c in s ==> !('A' <= c <= 'Z')
    ensures Lower(s) == s
  {
    if s != [] {
      assert s[0] in s;
      assert forall c :: c in s[1..] ==> c in s;
      LowerKeeps(s[1..]);
      assert s == [s[0]] + s[1..];
    }
  }

  // ---------------------------------------------------------------------------
  // Searching

  /** JavaScript's `s.includes(p)`. */
  predicate Contains(s: string, p: string)
    decreases |s|
  {
    p <= s || (s != [] && Contains(s[1..], p))
  }

  /** `p` occurs in `s` at position `i`. */
  predicate OccursAt(s: string, p: string, i: nat) {
    i + |p| <= |s| && s[i..i + |p|] == p
  }

  /** An occurrence of `p` at any position makes `s` contain `p`. */
  lemma {:induction false} OccurrenceContains(s: string, p: string, i: nat)
    requires OccursAt(s, p, i)
    ensures Contains(s, p)
  {
    if i == 0 {
      assert p <= s;
    } else {
      assert s[1..][i - 1..i - 1 + |p|] == s[i..i + |p|];
      OccurrenceContains(s[1..], p, i - 1);
    }
  }

  /** `includes` holds exactly when the pattern occurs at some position. */
  lemma ContainsIffOccurs(s: string, p: string)
    ensures Contains(s, p) <==> exists i: nat :: OccursAt(s, p, i)
  {
    if Contains(s, p) {
      assert OccursAt(s, p, IndexOf(s, p).value);
    }
    if exists i: nat :: OccursAt(s, p, i) {
      var i: nat :| OccursAt(s, p, i);
      OccurrenceContains(s, p, i);
    }
  }

  /** A text containing a non-empty pattern contains the pattern's first character. */
  lemma ContainsHead(s: string, p: string)
    requires p != [] && Contains(s, p)
    ensures p[0] in s
  {
    var i := IndexOf(s, p).value;
    assert s[i..i + |p|][0] == s[i];
  }

  /** The first position where `p` occurs in `s`: the search that `replace` with a string pattern performs. */
  function IndexOf(s: string, p: string): (r: Option<nat>)
    decreases |s|
    ensures r.Some? ==> OccursAt(s, p, r.value)
    ensures r.Some? ==> forall k: nat :: k < r.value ==> !OccursAt(s, p, k)
    ensures r.None? <==> !Contains(s, p)
  {
    if p <= s then Some(0)
    else if s == [] then None
    else match IndexOf(s[1..], p)
      case Some(i) =>
        assert forall k: nat :: 1 <= k <= i ==> OccursAt(s, p, k) == OccursAt(s[1..], p, k - 1);
        Some(i + 1)
      case None => None
  }

  /** What a prefix of `s` contains, `s` contains. */
  lemma ContainsInPrefix(s: string, n: nat, p: string)
    requires n <= |s| && Contains(s[..n], p)
    ensures Contains(s, p)
  {
    var i := IndexOf(s[..n], p).value;
    assert OccursAt(s[..n], p, i);
    assert s[i..i + |p|] == s[..n][i..i + |p|];
    OccurrenceContains(s, p, i);
  }

  /** A position where a contained pattern occurs. */
  lemma SomeOccurrence(s: string, p: string) returns (i: nat)
    requires Contains(s, p)
    ensures OccursAt(s, p, i)
  {
    i := IndexOf(s, p).value;
  }

  /** A contained pattern is no longer than the text. */
  lemma ContainsNoLonger(s: string, p: string)
    requires Contains(s, p)
    ensures |p| <= |s|
  {
    var i := SomeOccurrence(s, p);
  }

  /** Containment is transitive. */
  lemma ContainsTransitive(a: string, b: string, c: string)
    requires Contains(a, b) && Contains(b, c)
    ensures Contains(a, c)
  {
    var i := SomeOccurrence(a, b);
    var j := SomeOccurrence(b, c);
    forall x | 0 <= x < |c| ensures a[i + j + x] == c[x] {
      assert a[i + j + x] == a[i..i + |b|][j + x] == b[j + x] == b[j..j + |c|][x];
    }
    assert a[i + j..i + j + |c|] == c;
    OccurrenceContains(a, c, i + j);
  }

  /** A string contains whatever its middle part contains. */
  lemma ContainsInfix(a: string, p: string, b: string)
    ensures Contains(a + p + b, p)
  {
    assert (a + p + b)[|a|..|a| + |p|] == p;
    OccurrenceContains(a + p + b, p, |a|);
  }

  /** Index of the first `c` in `s`. */
  function FindChar(s: string, c: char): (r: Option<nat>)
    ensures r.Some? ==> r.value < |s| && s[r.value] == c
    ensures r.Some? ==> forall k :: 0 <= k < r.value ==> s[k] != c
    ensures r.None? ==> forall k :: 0 <= k < |s| ==> s[k] != c
  {
    if s == [] then None
    else if s[0] == c then Some(0)
    else match FindChar(s[1..], c)
      case Some(i) => Some(i + 1)
      case None => None
  }

  /** Index of the last `c` in `s`. */
  function FindLastChar(s: string, c: char): (r: Option<nat>)
    ensures r.Some? ==> r.value < |s| && s[r.value] == c
    ensures r.Some? ==> forall k :: r.value < k < |s| ==> s[k] != c
    ensures r.None? ==> forall k :: 0 <= k < |s| ==> s[k] != c
  {
    if s == [] then None
    else if s[|s| - 1] == c then Some(|s| - 1)
    else FindLastChar(s[..|s| - 1], c)
  }

  // ---------------------------------------------------------------------------
  // Replacing

  /** JavaScript's `s.replace(p, "")` with a string pattern: drops the first occurrence. */
  function RemoveFirst(s: string, p: string): (r: string)
    ensures Contains(s, p) ==> |r| == |s| - |p|
    ensures !Contains(s, p) ==> r == s
  {
    match IndexOf(s, p)
    case Some(i) => s[..i] + s[i + |p|..]
    case None => s
  }

  /**
   * When the pattern occurs, `replace` cuts out its first occurrence, at the
   * position `i` this lemma returns, and keeps everything around it.
   */
  lemma RemoveFirstCuts(s: string, p: string) returns (i: nat)
    requires Contains(s, p)
    ensures OccursAt(s, p, i) && forall j: nat :: j < i ==> !OccursAt(s, p, j)
    ensures RemoveFirst(s, p) == s[..i] + s[i + |p|..]
  {
    i := IndexOf(s, p).value;
  }

  predicate NonEmptyPatterns(pats: seq<string>) {
    forall k :: 0 <= k < |pats| ==> pats[k] != []
  }

  /** The first alternative of `pats` that `s` starts with. */
  function FirstPrefix(s: string, pats: seq<string>): (r: Option<nat>)
    ensures r.Some? ==> r.value < |pats| && pats[r.value] <= s
    ensures r.Some? ==> forall k :: 0 <= k < r.value ==> !(pats[k] <= s)
    ensures r.None? ==> forall k :: 0 <= k < |pats| ==> !(pats[k] <= s)
  {
    if pats == [] then None
    else if pats[0] <= s then Some(0)
    else match FirstPrefix(s, pats[1..])
      case Some(k) => Some(k + 1)
      case None => None
  }

  /**
   * `s.replace(/p0|p1|.../g, "")` for literal alternatives: scanning left to right,
   * at each position the first alternative that matches there is removed and the
   * scan resumes after it; otherwise the character is kept.
   */
  function RemoveAll(s: string, pats: seq<string>): (r: string)
    requires NonEmptyPatterns(pats)
    ensures |r| <= |s|
    decreases |s|
  {
    if s == [] then []
    else match FirstPrefix(s, pats)
      case Some(k) => RemoveAll(s[|pats[k]|..], pats)
      case None => [s[0]] + RemoveAll(s[1..], pats)
  }

  /** Text in which no alternative occurs passes through the global `replace` unchanged. */
  lemma {:induction false} RemoveAllWithoutMatches(s: string, pats: seq<string>)
    requires NonEmptyPatterns(pats)
    requires forall k :: 0 <= k < |pats| ==> !Contains(s, pats[k])
    ensures RemoveAll(s, pats) == s
    decreases |s|
  {
    if s != [] {
      assert FirstPrefix(s, pats).None?;
      RemoveAllWithoutMatches(s[1..], pats);
      assert s == [s[0]] + s[1..];
    }
  }

  // ---------------------------------------------------------------------------
  // Splitting and joining

  /** How many characters of `s` are in `seps`. */
  function CountIn(s: string, seps: set<char>): nat {
    if s == [] then 0 else (if s[0] in seps then 1 else 0) + CountIn(s[1..], seps)
  }

  /** JavaScript's `s.split(/[...]/)` for a character class: pieces between separators, empty ones included. */
  function Split(s: string, seps: set<char>): (parts: seq<string>)
    ensures |parts| == CountIn(s, seps) + 1
    decreases |s|
  {
    if s == [] then [[]]
    else
      var rest := Split(s[1..], seps);
      if s[0] in seps then [[]] + rest else [[s[0]] + rest[0]] + rest[1..]
  }

  /** JavaScript's `parts.join(sep)`. */
  function Join(parts: seq<string>, sep: char): (r: string)
    ensures |r| >= |parts| - 1
  {
    if parts == [] then []
    else if |parts| == 1 then parts[0]
    else parts[0] + [sep] + Join(parts[1..], sep)
  }

  /** Joining the pieces with the separator they were split on gives back the string. */
  lemma {:induction false} JoinSplit(s: string, sep: char)
    ensures Join(Split(s, {sep}), sep) == s
  {
    if s != [] {
      var rest := Split(s[1..], {sep});
      JoinSplit(s[1..], sep);
      if s[0] == sep {
        assert ([[]] + rest)[1..] == rest;
      } else if |rest| > 1 {
        var parts := [[s[0]] + rest[0]] + rest[1..];
        assert parts[1..] == rest[1..];
      }
    }
  }

  /** Joining a concatenation puts one separator between the two halves. */
  lemma {:induction false} JoinAppend(a: seq<string>, b: seq<string>, sep: char)
    requires a != [] && b != []
    ensures Join(a + b, sep) == Join(a, sep) + [sep] + Join(b, sep)
  {
    if |a| > 1 {
      assert (a + b)[1..] == a[1..] + b;
      JoinAppend(a[1..], b, sep);
    } else {
      assert (a + b)[1..] == b;
    }
  }

  /** No piece contains a separator. */
  lemma {:induction false} SplitPiecesFree(s: string, seps: set<char>, k: nat)
    requires k < |Split(s, seps)|
    ensures forall c :: c in Split(s, seps)[k] ==> c !in seps
  {
    if s != [] {
      var rest := Split(s[1..], seps);
      if s[0] in seps {
        if k > 0 {
          SplitPiecesFree(s[1..], seps, k - 1);
        }
      } else {
        SplitPiecesFree(s[1..], seps, k);
      }
    }
  }

  /** Text without the separator is one piece. */
  lemma {:induction false} SplitNoSeparator(p: string, sep: char)
    requires sep !in p
    ensures Split(p, {sep}) == [p]
  {
    if p != [] {
      assert forall c :: c in p[1..] ==> c in p;
      SplitNoSeparator(p[1..], sep);
      assert p == [p[0]] + p[1..];
    }
  }

  /** A separator-free piece followed by the separator splits off as the first piece. */
  lemma {:induction false} SplitAfterPiece(p: string, t: string, sep: char)
    requires sep !in p
    ensures Split(p + [sep] + t, {sep}) == [p] + Split(t, {sep})
  {
    if p == [] {
      assert p + [sep] + t == [sep] + t;
      assert ([sep] + t)[1..] == t;
    } else {
      assert forall c :: c in p[1..] ==> c in p;
      SplitAfterPiece(p[1..], t, sep);
      assert (p + [sep] + t)[1..] == p[1..] + [sep] + t;
      assert p == [p[0]] + p[1..];
    }
  }

  /** Splitting the join of separator-free pieces gives the pieces back. */
  lemma {:induction false} SplitJoin(parts: seq<string>, sep: char)
    requires parts != []
    requires forall k :: 0 <= k < |parts| ==> sep !in parts[k]
    ensures Split(Join(parts, sep), {sep}) == parts
  {
    if |parts| == 1 {
      SplitNoSeparator(parts[0], sep);
    } else {
      SplitJoin(parts[1..], sep);
      SplitAfterPiece(parts[0], Join(parts[1..], sep), sep);
      assert parts == [parts[0]] + parts[1..];
    }
  }

  /** The first piece is a prefix of the string. */
  lemma {:induction false} SplitHeadIsPrefix(s: string, seps: set<char>)
    ensures Split(s, seps)[0] <= s
  {
    if s != [] {
      SplitHeadIsPrefix(s[1..], seps);
    }
  }

  /** Every piece occurs in the string that was split. */
  lemma {:induction false} SplitPiecesOccur(s: string, seps: set<char>, k: nat)
    requires k < |Split(s, seps)|
    ensures Contains(s, Split(s, seps)[k])
  {
    if s != [] {
      var rest := Split(s[1..], seps);
      if s[0] in seps {
        if k > 0 {
          SplitPiecesOccur(s[1..], seps, k - 1);
        }
      } else if k == 0 {
        SplitHeadIsPrefix(s[1..], seps);
      } else {
        SplitPiecesOccur(s[1..], seps, k);
      }
    }
  }

  // ---------------------------------------------------------------------------
  // Numbers

  function DigitChar(d: nat): char
    requires d < 10
  {
    "0123456789"[d]
  }

  /** The number a string of decimal digits denotes. */
  function DecimalValue(s: string): int {
    if s == [] then 0 else DecimalValue(s[..|s| - 1]) * 10 + (s[|s| - 1] as int - '0' as int)
  }

  /** The decimal form of `n`, as a template literal `${n}` writes it. */
  function DecimalString(n: nat): (r: string)
    ensures r != []
    ensures forall c :: c in r ==> '0' <= c <= '9'
    ensures DecimalValue(r) == n
    ensures n > 0 ==> r[0] != '0'
  {
    if n < 10 then [DigitChar(n)]
    else
      var r := DecimalString(n / 10) + [DigitChar(n % 10)];
      assert r[..|r| - 1] == DecimalString(n / 10);
      r
  }
}
