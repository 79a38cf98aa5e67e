/** String primitives the roster code leans on: the code-unit order behind
    `localeCompare` and the default `sort()`, `toLowerCase`, `includes`,
    `trim`, `split` and the `\d` character class. */
module Text {

  /** Code-unit lexicographic order on strings (`a <= b` in JavaScript). */
  predicate LexLe(a: string, b: string)
  {
    if a == [] then true
    else if b == [] then false
    else if a[0] != b[0] then a[0] < b[0]
    else LexLe(a[1..], b[1..])
  }

  lemma {:induction false} LexTotal(a: string, b: string)
    ensures LexLe(a, b) || LexLe(b, a)
  {
    if a != [] && b != [] && a[0] == b[0] {
      LexTotal(a[1..], b[1..]);
    }
  }

  lemma {:induction false} LexTransitive(a: string, b: string, c: string)
    requires LexLe(a, b) && LexLe(b, c)
    ensures LexLe(a, c)
  {
    if a != [] && b != [] && c != [] && a[0] == b[0] && b[0] == c[0] {
      LexTransitive(a[1..], b[1..], c[1..]);
    }
  }

  lemma {:induction false} LexAntisymmetric(a: string, b: string)
    requires LexLe(a, b) && LexLe(b, a)
    ensures a == b
  {
    if a != [] && b != [] {
      LexAntisymmetric(a[1..], b[1..]);
      assert a == [a[0]] + a[1..] && b == [b[0]] + b[1..];
    }
  }

  // ---------------------------------------------------------------------
  // Case folding and substring search

  /** ASCII upper-case letters fold to lower case; everything else is kept. */
  function LowerChar(c: char): (r: char)
    ensures 'A' <= c <= 'Z' ==> r != c && 'a' <= r <= 'z'
    ensures !('A' <= c <= 'Z') ==> r == c
  {
    if 'A' <= c <= 'Z' then (c as int + 32) as char else c
  }

  function Lower(s: string): (r: string)
    ensures |r| == |s|
    ensures forall i :: 0 <= i < |s| ==> r[i] == LowerChar(s[i])
  {
    seq(|s|, i requires 0 <= i < |s| => LowerChar(s[i]))
  }

  /** `s.includes(sub)`. */
  predicate Contains(s: string, sub: string)
  {
    exists i | 0 <= i <= |s| - |sub| :: MatchesAt(s, sub, i)
  }

  predicate MatchesAt(s: string, sub: string, i: int)
  {
    0 <= i <= |s| - |sub| && s[i..i + |sub|] == sub
  }

  lemma ContainsEmpty(s: string)
    ensures Contains(s, "")
  {
    assert MatchesAt(s, "", 0);
  }

  lemma ContainsItself(s: string)
    ensures Contains(s, s)
  {
    assert MatchesAt(s, s, 0);
  }

  // ---------------------------------------------------------------------
  // trim

  /** The characters `String.prototype.trim` strips, restricted to the
      Latin-1 range plus the byte-order mark. */
  predicate IsSpace(c: char)
  {
    c == ' ' || c == '\t' || c == '\n' || c == '\r' || c == '\U{000B}' ||
    c == '\U{000C}' || c == '\U{00A0}' || c == '\U{FEFF}'
  }

  predicate AllSpace(s: string)
  {
    forall i :: 0 <= i < |s| ==> IsSpace(s[i])
  }

  /** `s.trim()`: white space is stripped from both ends until neither end
      is white space. Empty exactly when `s` is all white space; TrimShape
      gives the rest of its meaning. */
  function Trim(s: string): (r: string)
    ensures r == [] <==> AllSpace(s)
    decreases |s|
  {
    if s == [] then []
    else if IsSpace(s[0]) then
      assert AllSpace(s) <==> AllSpace(s[1..]) by {
        if AllSpace(s[1..]) {
          forall i | 0 < i < |s| ensures IsSpace(s[i]) { assert s[i] == s[1..][i - 1]; }
        }
      }
      Trim(s[1..])
    else if IsSpace(s[|s| - 1]) then
      assert s[..|s| - 1][0] == s[0];
      Trim(s[..|s| - 1])
    else s
  }

  /** The trimmed text is an infix of `s` that neither starts nor ends with
      white space. */
  lemma TrimShape(s: string)
    ensures exists i, j :: 0 <= i <= j <= |s| && Trim(s) == s[i..j]
    ensures Trim(s) != [] ==> !IsSpace(Trim(s)[0]) && !IsSpace(Trim(s)[|Trim(s)| - 1])
  {
    var i, j := TrimBounds(s);
    TrimEnds(s);
  }

  /** Where the trimmed text sits in `s`. */
  lemma {:induction false} TrimBounds(s: string) returns (i: nat, j: nat)
    ensures i <= j <= |s| && Trim(s) == s[i..j]
    decreases |s|
  {
    if s == [] {
      i, j := 0, 0;
    } else if IsSpace(s[0]) {
      var i', j' := TrimBounds(s[1..]);
      assert s[1..][i'..j'] == s[i' + 1..j' + 1];
      i, j := i' + 1, j' + 1;
    } else if IsSpace(s[|s| - 1]) {
      i, j := TrimBounds(s[..|s| - 1]);
      assert s[..|s| - 1][i..j] == s[i..j];
    } else {
      i, j := 0, |s|;
    }
  }

  lemma {:induction false} TrimEnds(s: string)
    ensures Trim(s) != [] ==> !IsSpace(Trim(s)[0]) && !IsSpace(Trim(s)[|Trim(s)| - 1])
    decreases |s|
  {
    if s != [] {
      if IsSpace(s[0]) {
        TrimEnds(s[1..]);
      } else if IsSpace(s[|s| - 1]) {
        TrimEnds(s[..|s| - 1]);
      }
    }
  }

  lemma TrimIdempotent(s: string)
    ensures Trim(Trim(s)) == Trim(s)
  {
    TrimShape(s);
  }

  // ---------------------------------------------------------------------
  // split on one separator character

  function IndexOf(s: string, c: char): (i: nat)
    requires c in s
    ensures i < |s| && s[i] == c && c !in s[..i]
  {
    if s[0] == c then 0 else 1 + IndexOf(s[1..], c)
  }

  /** `s.split(sep)` for a one-character separator: the pieces between
      separators, so `|Split(s)|` is one more than the number of separators. */
  function Split(s: string, sep: char): (parts: seq<string>)
    ensures |parts| >= 1
    ensures forall k :: 0 <= k < |parts| ==> sep !in parts[k]
    decreases |s|
  {
    if sep !in s then [s]
    else
      var i := IndexOf(s, sep);
      [s[..i]] + Split(s[i + 1..], sep)
  }

  lemma SplitJoined(a: string, sep: char, rest: string)
    requires sep !in a
    ensures Split(a + [sep] + rest, sep) == [a] + Split(rest, sep)
  {
    var s := a + [sep] + rest;
    assert s[|a|] == sep;
    assert s[..|a|] == a;
    IndexOfPrefix(a, sep, rest);
    assert s[|a| + 1..] == rest;
  }

  lemma {:induction false} IndexOfPrefix(a: string, c: char, rest: string)
    requires c !in a
    ensures c in a + [c] + rest && IndexOf(a + [c] + rest, c) == |a|
  {
    var s := a + [c] + rest;
    assert s[|a|] == c;
    if a != [] {
      assert s[1..] == a[1..] + [c] + rest;
      IndexOfPrefix(a[1..], c, rest);
    }
  }

  /** Splitting `y-m-d` on `'-'` gives back the three pieces. */
  lemma SplitThree(y: string, m: string, d: string)
    requires '-' !in y && '-' !in m && '-' !in d
    ensures Split(y + "-" + m + "-" + d, '-') == [y, m, d]
  {
    assert y + "-" + m + "-" + d == y + ['-'] + (m + ['-'] + d);
    SplitJoined(y, '-', m + ['-'] + d);
    SplitJoined(m, '-', d);
  }

  // ---------------------------------------------------------------------
  // digits

  /** The `\d` class of a regular expression without the `u` flag. */
  predicate IsDigit(c: char)
  {
    '0' <= c <= '9'
  }

  predicate AllDigits(s: string)
  {
    forall i :: 0 <= i < |s| ==> IsDigit(s[i])
  }

  /** `s.replace(/\D/g, '')`: the digits of `s`, in order. */
  function KeepDigits(s: string): (r: string)
    ensures AllDigits(r)
    ensures |r| <= |s|
    ensures AllDigits(s) ==> r == s
    ensures forall c :: multiset(r)[c] == if IsDigit(c) then multiset(s)[c] else 0
  {
    if s == [] then []
    else
      assert s == [s[0]] + s[1..];
      if IsDigit(s[0]) then [s[0]] + KeepDigits(s[1..])
      else KeepDigits(s[1..])
  }

  /** One step of `KeepDigits` on a leading digit: it is kept. */
  lemma KeepDigitsConsDigit(c: char, s: string)
    requires IsDigit(c)
    ensures KeepDigits([c] + s) == [c] + KeepDigits(s)
  {
    assert ([c] + s)[0] == c && ([c] + s)[1..] == s;
  }

  /** One step of `KeepDigits` on a leading non-digit: it is dropped. */
  lemma KeepDigitsConsOther(c: char, s: string)
    requires !IsDigit(c)
    ensures KeepDigits([c] + s) == KeepDigits(s)
  {
    assert ([c] + s)[0] == c && ([c] + s)[1..] == s;
  }

  /** Digits are kept in the order they were typed: the digits of a
      concatenation are the digits of each part, concatenated. */
  lemma {:induction false} KeepDigitsConcat(a: string, b: string)
    ensures KeepDigits(a + b) == KeepDigits(a) + KeepDigits(b)
  {
    if a == [] {
      assert a + b == b;
    } else {
      var c, rest := a[0], a[1..];
      assert a == [c] + rest;
      assert a + b == [c] + (rest + b);
      if IsDigit(c) {
        calc {
          KeepDigits(a + b);
          { KeepDigitsConsDigit(c, rest + b); }
          [c] + KeepDigits(rest + b);
          { KeepDigitsConcat(rest, b); }
          [c] + (KeepDigits(rest) + KeepDigits(b));
          ([c] + KeepDigits(rest)) + KeepDigits(b);
          { KeepDigitsConsDigit(c, rest); }
          KeepDigits(a) + KeepDigits(b);
        }
      } else {
        calc {
          KeepDigits(a + b);
          { KeepDigitsConsOther(c, rest + b); }
          KeepDigits(rest + b);
          { KeepDigitsConcat(rest, b); }
          KeepDigits(rest) + KeepDigits(b);
          { KeepDigitsConsOther(c, rest); }
          KeepDigits(a) + KeepDigits(b);
        }
      }
    }
  }

}
