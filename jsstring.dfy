/**
 * The few ECMAScript string operations the store, the server and the frontend rely on:
 * the whitespace class shared by `trim` and the regular expression `\s`, `trim`,
 * `split(/\s+/)`, `join`, `slice(0, n)`, `startsWith`, `includes` and `toLowerCase`.
 * A JavaScript string is modelled as a `seq<char>`.
 */
module JsString {

  /** ECMAScript WhiteSpace and LineTerminator code points: what `trim` strips and `\s` matches. */
  predicate IsWhitespace(c: char)
  {
    || c == '\t' || c == '\n' || c == '\U{B}' || c == '\U{C}' || c == '\r' || c == ' '
    || c == '\U{A0}' || c == '\U{1680}' || ('\U{2000}' <= c <= '\U{200A}')
    || c == '\U{2028}' || c == '\U{2029}' || c == '\U{202F}' || c == '\U{205F}'
    || c == '\U{3000}' || c == '\U{FEFF}'
  }

  predicate IsAsciiLetter(c: char)
  {
    ('a' <= c <= 'z') || ('A' <= c <= 'Z')
  }

  predicate IsAsciiDigit(c: char)
  {
    '0' <= c <= '9'
  }

  /** The class `[a-zA-Z0-9]`. */
  predicate IsAsciiAlnum(c: char)
  {
    IsAsciiLetter(c) || IsAsciiDigit(c)
  }

  lemma AlnumIsNotWhitespace(c: char)
    requires IsAsciiAlnum(c)
    ensures !IsWhitespace(c)
  {
  }

  predicate AllWhitespace(s: string)
  {
    forall i :: 0 <= i < |s| ==> IsWhitespace(s[i])
  }

  predicate NoWhitespace(s: string)
  {
    forall i :: 0 <= i < |s| ==> !IsWhitespace(s[i])
  }

  /** `s.slice(0, n)` for a non-negative `n`: the first `n` characters, or all of them. */
  function Take(s: string, n: nat): (r: string)
    ensures |r| == if n <= |s| then n else |s|
    ensures r == s[..|r|]
  {
    if n <= |s| then s[..n] else s
  }

  /** `s.startsWith(prefix)`. */
  predicate StartsWith(s: string, prefix: string)
  {
    |prefix| <= |s| && s[..|prefix|] == prefix
  }

  /** `s.includes(sub)`: `sub` occurs somewhere in `s`. */
  predicate Contains(s: string, sub: string)
    decreases |s|
  {
    StartsWith(s, sub) || (s != [] && Contains(s[1..], sub))
  }

  /** `sub` occurs in `s` starting at position `i`. */
  predicate OccursAt(s: string, sub: string, i: int)
  {
    0 <= i <= |s| - |sub| && s[i..i + |sub|] == sub
  }

  lemma {:induction false} ContainsAt(s: string, sub: string, i: nat)
    requires OccursAt(s, sub, i)
    ensures Contains(s, sub)
    decreases i
  {
    if i > 0 {
      assert s[1..][i - 1..i - 1 + |sub|] == s[i..i + |sub|];
      ContainsAt(s[1..], sub, i - 1);
    } else {
      assert s[..|sub|] == s[0..|sub|];
    }
  }

  /** `Contains` holds exactly when `sub` occurs at some position of `s`. */
  lemma {:induction false} ContainsIff(s: string, sub: string)
    ensures Contains(s, sub) <==> exists i :: OccursAt(s, sub, i)
    decreases |s|
  {
    if Contains(s, sub) {
      if StartsWith(s, sub) {
        assert OccursAt(s, sub, 0);
      } else {
        ContainsIff(s[1..], sub);
        var j :| OccursAt(s[1..], sub, j);
        assert s[j + 1..j + 1 + |sub|] == s[1..][j..j + |sub|];
        assert OccursAt(s, sub, j + 1);
      }
    }
    if exists i :: OccursAt(s, sub, i) {
      var i :| OccursAt(s, sub, i);
      ContainsAt(s, sub, i);
    }
  }

  /** The ASCII part of `toLowerCase`: `A`-`Z` become `a`-`z`, every other character stays. */
  function LowerChar(c: char): (r: char)
    ensures IsAsciiLetter(c) ==> IsAsciiLetter(r) && 'a' <= r <= 'z'
    ensures 'A' <= c <= 'Z' ==> r as int == c as int + 32
    ensures !('A' <= c <= 'Z') ==> r == c
  {
    if 'A' <= c <= 'Z' then (c as int + 32) as char else c
  }

  /** `s.toLowerCase()` on the ASCII letters. */
  function ToLower(s: string): (r: string)
  {
    seq(|s|, i requires 0 <= i < |s| => LowerChar(s[i]))
  }

  /** Lower-casing twice is lower-casing once. */
  lemma ToLowerIdempotent(s: string)
    ensures ToLower(ToLower(s)) == ToLower(s)
  {
  }

  /** The longest prefix of `s` without whitespace. */
  function Word(s: string): (w: string)
  {
    if s == [] || IsWhitespace(s[0]) then [] else [s[0]] + Word(s[1..])
  }

  /** The first word is a whitespace-free prefix that stops at whitespace or at the end. */
  lemma {:induction false} WordSpec(s: string)
    ensures |Word(s)| <= |s| && Word(s) == s[..|Word(s)|]
    ensures NoWhitespace(Word(s))
    ensures |Word(s)| < |s| ==> IsWhitespace(s[|Word(s)|])
  {
    if !(s == [] || IsWhitespace(s[0])) {
      WordSpec(s[1..]);
      assert Word(s) == [s[0]] + Word(s[1..]);
    }
  }

  /** The number of whitespace characters `s` starts with. */
  function LeadingWhitespace(s: string): (n: nat)
    ensures n <= |s|
  {
    if s != [] && IsWhitespace(s[0]) then 1 + LeadingWhitespace(s[1..]) else 0
  }

  /** The count covers exactly the whitespace run at the start. */
  lemma {:induction false} LeadingWhitespaceSpec(s: string)
    ensures forall i :: 0 <= i < LeadingWhitespace(s) ==> IsWhitespace(s[i])
    ensures LeadingWhitespace(s) < |s| ==> !IsWhitespace(s[LeadingWhitespace(s)])
  {
    if s != [] && IsWhitespace(s[0]) {
      LeadingWhitespaceSpec(s[1..]);
      forall i | 0 <= i < LeadingWhitespace(s) ensures IsWhitespace(s[i]) {
        if i > 0 {
          assert s[i] == s[1..][i - 1];
        }
      }
    }
  }

  /** The number of whitespace characters `s` ends with. */
  function TrailingWhitespace(s: string): (n: nat)
    ensures n <= |s|
  {
    if s != [] && IsWhitespace(s[|s| - 1]) then 1 + TrailingWhitespace(s[..|s| - 1]) else 0
  }

  /** The count covers exactly the whitespace run at the end. */
  lemma {:induction false} TrailingWhitespaceSpec(s: string)
    ensures forall i :: |s| - TrailingWhitespace(s) <= i < |s| ==> IsWhitespace(s[i])
    ensures TrailingWhitespace(s) < |s| ==> !IsWhitespace(s[|s| - TrailingWhitespace(s) - 1])
  {
    if s != [] && IsWhitespace(s[|s| - 1]) {
      TrailingWhitespaceSpec(s[..|s| - 1]);
    }
  }

  /** `s` without its leading whitespace (`trimStart`). */
  function TrimStart(s: string): (r: string)
  {
    s[LeadingWhitespace(s)..]
  }

  /** `s.trim()`. */
  function Trim(s: string): (r: string)
  {
    var u := TrimStart(s);
    u[..|u| - TrailingWhitespace(u)]
  }

  /** `trim` keeps a contiguous piece of its input with no whitespace at either end,
      drops only whitespace before and after it, and yields the empty string exactly
      when the input is all whitespace. */
  lemma TrimSpec(s: string)
    ensures |Trim(s)| <= |s|
    ensures Trim(s) == s[LeadingWhitespace(s)..LeadingWhitespace(s) + |Trim(s)|]
    ensures Trim(s) != [] ==> !IsWhitespace(Trim(s)[0]) && !IsWhitespace(Trim(s)[|Trim(s)| - 1])
    ensures Trim(s) == [] <==> AllWhitespace(s)
    ensures forall i :: 0 <= i < LeadingWhitespace(s) ==> IsWhitespace(s[i])
    ensures forall i :: LeadingWhitespace(s) + |Trim(s)| <= i < |s| ==> IsWhitespace(s[i])
  {
    TrimPiece(s);
    TrimDrops(s);
  }

  lemma TrimPiece(s: string)
    ensures |Trim(s)| <= |s|
    ensures Trim(s) == s[LeadingWhitespace(s)..LeadingWhitespace(s) + |Trim(s)|]
    ensures Trim(s) != [] ==> !IsWhitespace(Trim(s)[0]) && !IsWhitespace(Trim(s)[|Trim(s)| - 1])
    ensures Trim(s) == [] <==> AllWhitespace(s)
  {
    var a := LeadingWhitespace(s);
    var u := s[a..];
    var b := TrailingWhitespace(u);
    LeadingWhitespaceSpec(s);
    TrailingWhitespaceSpec(u);
    assert Trim(s) == s[a..|s| - b];
    if Trim(s) == [] {
      assert a == |s|;
    }
  }

  lemma TrimDrops(s: string)
    ensures forall i :: 0 <= i < LeadingWhitespace(s) ==> IsWhitespace(s[i])
    ensures forall i :: LeadingWhitespace(s) + |Trim(s)| <= i < |s| ==> IsWhitespace(s[i])
  {
    var a := LeadingWhitespace(s);
    var u := s[a..];
    var b := TrailingWhitespace(u);
    LeadingWhitespaceSpec(s);
    TrailingWhitespaceSpec(u);
    assert |Trim(s)| == |s| - b - a;
    forall i | a + |Trim(s)| <= i < |s| ensures IsWhitespace(s[i]) {
      assert s[i] == u[i - a];
    }
  }

  /** Trimming a string that opens with a non-empty whitespace-free prefix keeps that
      prefix in place. */
  lemma TrimKeepsPrefix(p: string, x: string)
    requires p != [] && NoWhitespace(p)
    ensures StartsWith(Trim(p + x), p)
  {
    var s := p + x;
    assert s[0] == p[0];
    assert LeadingWhitespace(s) == 0;
    TrailingWhitespaceSpec(s);
    var b := TrailingWhitespace(s);
    assert s[|p| - 1] == p[|p| - 1];
    assert b <= |x|;
    assert Trim(s) == s[..|s| - b];
  }

  /** A string with no whitespace at either end is its own trim. */
  lemma TrimUnchanged(s: string)
    requires s == [] || (!IsWhitespace(s[0]) && !IsWhitespace(s[|s| - 1]))
    ensures Trim(s) == s
  {
    assert LeadingWhitespace(s) == 0;
    assert TrailingWhitespace(s) == 0;
  }

  /** `s.split(/\s+/)`: the pieces between maximal runs of whitespace; whitespace at
      the very start or end of `s` contributes an empty first or last piece. */
  function Split(s: string): (r: seq<string>)
    ensures |r| >= 1
    decreases |s|
  {
    var w := Word(s);
    WordSpec(s);
    if |w| >= |s| then [w]
    else
      LeadingWhitespaceSpec(s[|w|..]);
      [w] + Split(TrimStart(s[|w|..]))
  }

  /** `s` with every whitespace character removed. */
  function DropWhitespace(s: string): (r: string)
  {
    if s == [] then [] else (if IsWhitespace(s[0]) then [] else [s[0]]) + DropWhitespace(s[1..])
  }

  /** The pieces of `parts` run together. */
  function Concat(parts: seq<string>): (r: string)
  {
    if parts == [] then [] else parts[0] + Concat(parts[1..])
  }

  lemma {:induction false} DropWhitespaceAppend(a: string, b: string)
    ensures DropWhitespace(a + b) == DropWhitespace(a) + DropWhitespace(b)
  {
    if a == [] {
      assert a + b == b;
    } else {
      var head := if IsWhitespace(a[0]) then [] else [a[0]];
      assert (a + b)[0] == a[0];
      assert (a + b)[1..] == a[1..] + b;
      assert DropWhitespace(a + b) == head + DropWhitespace(a[1..] + b);
      DropWhitespaceAppend(a[1..], b);
      assert DropWhitespace(a) == head + DropWhitespace(a[1..]);
    }
  }

  lemma {:induction false} DropWhitespaceOfNone(s: string)
    requires NoWhitespace(s)
    ensures DropWhitespace(s) == s
  {
    if s != [] {
      DropWhitespaceOfNone(s[1..]);
    }
  }

  lemma {:induction false} DropWhitespaceOfAll(s: string)
    requires AllWhitespace(s)
    ensures DropWhitespace(s) == []
  {
    if s != [] {
      DropWhitespaceOfAll(s[1..]);
    }
  }

  /** No piece of a split holds whitespace. */
  lemma {:induction false} SplitNoWhitespace(s: string)
    ensures forall k :: 0 <= k < |Split(s)| ==> NoWhitespace(Split(s)[k])
    decreases |s|
  {
    var w := Word(s);
    WordSpec(s);
    if |w| < |s| {
      LeadingWhitespaceSpec(s[|w|..]);
      SplitNoWhitespace(TrimStart(s[|w|..]));
    }
  }

  /** Removing whitespace is blind to a leading whitespace run. */
  lemma DropLeadingWhitespace(s: string)
    ensures DropWhitespace(s) == DropWhitespace(TrimStart(s))
  {
    var a := LeadingWhitespace(s);
    LeadingWhitespaceSpec(s);
    assert s == s[..a] + TrimStart(s);
    DropWhitespaceOfAll(s[..a]);
    DropWhitespaceAppend(s[..a], TrimStart(s));
  }

  /** The pieces of a split run together are the input without its whitespace. */
  lemma {:induction false} SplitConcat(s: string)
    ensures Concat(Split(s)) == DropWhitespace(s)
    decreases |s|
  {
    var w := Word(s);
    WordSpec(s);
    DropWhitespaceOfNone(w);
    if |w| >= |s| {
      assert w == s;
      assert Split(s) == [w];
      assert [w][1..] == [];
      assert Concat([w]) == w + Concat([]);
    } else {
      var rest := s[|w|..];
      var t := TrimStart(rest);
      LeadingWhitespaceSpec(rest);
      SplitConcat(t);
      DropLeadingWhitespace(rest);
      assert s == w + rest;
      DropWhitespaceAppend(w, rest);
      var r := Split(s);
      assert r == [w] + Split(t);
      assert r[1..] == Split(t);
      assert Concat(r) == w + Concat(Split(t));
    }
  }

  /** A split of a string that does not start with whitespace starts with a non-empty
      piece, unless the string is empty. */
  lemma {:induction false} SplitFirstPiece(s: string)
    requires s != [] && !IsWhitespace(s[0])
    ensures Split(s)[0] != []
  {
    assert Word(s) == [s[0]] + Word(s[1..]);
  }

  /** Every piece of a split other than the first and the last is non-empty: only
      whitespace at the very start or end of the input yields an empty piece. */
  lemma {:induction false} SplitInterior(s: string)
    ensures forall k :: 0 < k < |Split(s)| - 1 ==> Split(s)[k] != []
    decreases |s|
  {
    var w := Word(s);
    WordSpec(s);
    if |w| < |s| {
      var t := TrimStart(s[|w|..]);
      LeadingWhitespaceSpec(s[|w|..]);
      SplitInterior(t);
      assert Split(s) == [w] + Split(t);
      if |Split(t)| >= 2 {
        assert t != [];
        SplitFirstPiece(t);
      }
    }
  }

  /** `s` with every maximal run of whitespace replaced by a single space. */
  function Collapse(s: string): (r: string)
    decreases |s|
  {
    if s == [] then []
    else if IsWhitespace(s[0]) then
      assert LeadingWhitespace(s) >= 1;
      [' '] + Collapse(TrimStart(s))
    else [s[0]] + Collapse(s[1..])
  }

  /** A whitespace-free start passes through `Collapse` unchanged. */
  lemma {:induction false} CollapseOfWord(w: string, rest: string)
    requires NoWhitespace(w)
    ensures Collapse(w + rest) == w + Collapse(rest)
  {
    if w == [] {
      assert w + rest == rest;
    } else {
      assert (w + rest)[0] == w[0];
      assert (w + rest)[1..] == w[1..] + rest;
      CollapseOfWord(w[1..], rest);
      assert Collapse(w + rest) == [w[0]] + (w[1..] + Collapse(rest));
    }
  }

  /** Joining the pieces of a split with single spaces gives the input with each
      whitespace run collapsed to one space: the split cuts exactly at the whitespace
      runs. */
  lemma {:induction false} SplitJoinCollapse(s: string)
    ensures Join(Split(s), " ") == Collapse(s)
    decreases |s|
  {
    var w := Word(s);
    WordSpec(s);
    if |w| >= |s| {
      assert w == s;
      CollapseOfWord(s, []);
      assert s + [] == s;
      assert Split(s) == [w];
    } else {
      var rest := s[|w|..];
      var t := TrimStart(rest);
      LeadingWhitespaceSpec(rest);
      SplitJoinCollapse(t);
      assert s == w + rest;
      CollapseOfWord(w, rest);
      assert Collapse(rest) == [' '] + Collapse(t);
      var r := Split(s);
      assert r == [w] + Split(t);
      assert r[1..] == Split(t);
      assert Join(r, " ") == w + " " + Join(Split(t), " ");
    }
  }

  /** `split(/\s+/)` cuts its input at whitespace runs and nowhere else: no piece holds
      whitespace, joining the pieces with single spaces gives the input with each
      whitespace run collapsed to one space, the pieces run together give the input
      without its whitespace, and only the first and the last piece can be empty. */
  lemma SplitSpec(s: string)
    ensures forall k :: 0 <= k < |Split(s)| ==> NoWhitespace(Split(s)[k])
    ensures Join(Split(s), " ") == Collapse(s)
    ensures Concat(Split(s)) == DropWhitespace(s)
    ensures forall k :: 0 < k < |Split(s)| - 1 ==> Split(s)[k] != []
  {
    SplitNoWhitespace(s);
    SplitJoinCollapse(s);
    SplitConcat(s);
    SplitInterior(s);
  }

  /** A whitespace-free start of `s` followed by whitespace (or nothing) is its first word. */
  lemma {:induction false} WordOf(w: string, rest: string)
    requires NoWhitespace(w)
    requires rest == [] || IsWhitespace(rest[0])
    ensures Word(w + rest) == w
  {
    if w != [] {
      assert (w + rest)[1..] == w[1..] + rest;
      WordOf(w[1..], rest);
    }
  }

  /** Splitting two words separated by one space gives back the two words. */
  lemma SplitTwoWords(w1: string, w2: string)
    requires NoWhitespace(w1) && NoWhitespace(w2) && w2 != []
    ensures Split(w1 + " " + w2) == [w1, w2]
  {
    var s := w1 + " " + w2;
    WordOf(w1, " " + w2);
    WordOf(w2, []);
    assert w2 + [] == w2;
    LeadingWhitespaceSpec(w2);
    assert LeadingWhitespace(w2) == 0;
    assert s == w1 + (" " + w2);
    assert s[|w1|..] == " " + w2;
    assert LeadingWhitespace(" " + w2) == 1;
    assert TrimStart(" " + w2) == w2;
    WordOf(w2, []);
    assert w2 + [] == w2;
  }

  /** `parts.join(sep)`. */
  function Join(parts: seq<string>, sep: string): (r: string)
  {
    if |parts| == 0 then []
    else if |parts| == 1 then parts[0]
    else parts[0] + sep + Join(parts[1..], sep)
  }

  /** Joining whitespace-free pieces with a single space puts whitespace only at the joints,
      and there it is a plain space. */
  lemma {:induction false} JoinedBySpace(parts: seq<string>)
    requires forall k :: 0 <= k < |parts| ==> NoWhitespace(parts[k])
    ensures forall i :: 0 <= i < |Join(parts, " ")| && IsWhitespace(Join(parts, " ")[i]) ==> Join(parts, " ")[i] == ' '
  {
    if |parts| > 1 {
      JoinedBySpace(parts[1..]);
      var rest := Join(parts[1..], " ");
      assert Join(parts, " ") == parts[0] + " " + rest;
      forall i | 0 <= i < |Join(parts, " ")| && IsWhitespace(Join(parts, " ")[i])
        ensures Join(parts, " ")[i] == ' '
      {
        if i > |parts[0]| {
          assert Join(parts, " ")[i] == rest[i - |parts[0]| - 1];
        }
      }
    }
  }

  /** A character of a joined string comes from one of the pieces or from a separator. */
  lemma {:induction false} JoinedChar(parts: seq<string>, i: nat)
    requires i < |Join(parts, " ")|
    ensures Join(parts, " ")[i] == ' ' || exists k, j :: 0 <= k < |parts| && 0 <= j < |parts[k]| && parts[k][j] == Join(parts, " ")[i]
  {
    if |parts| == 1 {
      assert parts[0][i] == Join(parts, " ")[i];
    } else if |parts| > 1 {
      var rest := Join(parts[1..], " ");
      assert Join(parts, " ") == parts[0] + " " + rest;
      if i < |parts[0]| {
        assert parts[0][i] == Join(parts, " ")[i];
      } else if i > |parts[0]| {
        assert Join(parts, " ")[i] == rest[i - |parts[0]| - 1];
        JoinedChar(parts[1..], i - |parts[0]| - 1);
        if rest[i - |parts[0]| - 1] != ' ' {
          var k, j :| 0 <= k < |parts[1..]| && 0 <= j < |parts[1..][k]| && parts[1..][k][j] == rest[i - |parts[0]| - 1];
          assert parts[k + 1][j] == Join(parts, " ")[i];
        }
      }
    }
  }

  /** Every character of every piece appears in the joined string. */
  lemma {:induction false} JoinKeepsChars(parts: seq<string>, k: nat, j: nat)
    requires k < |parts| && j < |parts[k]|
    ensures parts[k][j] in Join(parts, " ")
  {
    if |parts| > 1 {
      var rest := Join(parts[1..], " ");
      assert Join(parts, " ") == parts[0] + " " + rest;
      if k == 0 {
        assert Join(parts, " ")[j] == parts[0][j];
      } else {
        JoinKeepsChars(parts[1..], k - 1, j);
      }
    }
  }
}
