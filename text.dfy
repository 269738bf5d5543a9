/** String helpers the analyzer relies on from Rust's standard library:
    `char::is_whitespace`, `str::trim`, `str::split(char)` and
    `str::eq_ignore_ascii_case`. Strings are sequences of Unicode scalar values. */
module Text {

  /** The characters with the Unicode White_Space property, which is what
      Rust's `char::is_whitespace` tests and what `str::trim` strips. */
  predicate IsWhitespace(c: char) {
    || ('\t' <= c <= '\r')
    || c == ' '
    || c == '\U{85}'
    || c == '\U{A0}'
    || c == '\U{1680}'
    || ('\U{2000}' <= c <= '\U{200A}')
    || c == '\U{2028}'
    || c == '\U{2029}'
    || c == '\U{202F}'
    || c == '\U{205F}'
    || c == '\U{3000}'
  }

  predicate AllWhitespace(s: string) {
    forall i :: 0 <= i < |s| ==> IsWhitespace(s[i])
  }

  /** Neither end of `s` is whitespace (the shape of every result of `Trim`). */
  predicate IsTrimmed(s: string) {
    s == [] || (!IsWhitespace(s[0]) && !IsWhitespace(s[|s| - 1]))
  }

  /** The number of whitespace characters `s` starts with. */
  function LeadingWhitespace(s: string): (n: nat)
    ensures n <= |s|
  {
    if s == [] || !IsWhitespace(s[0]) then 0 else LeadingWhitespace(s[1..]) + 1
  }

  /** `LeadingWhitespace` counts the longest all-whitespace prefix. */
  lemma {:induction false} LeadingWhitespaceSpec(s: string)
    ensures forall i :: 0 <= i < LeadingWhitespace(s) ==> IsWhitespace(s[i])
    ensures LeadingWhitespace(s) < |s| ==> !IsWhitespace(s[LeadingWhitespace(s)])
  {
    if s != [] && IsWhitespace(s[0]) {
      LeadingWhitespaceSpec(s[1..]);
      forall i | 1 <= i < LeadingWhitespace(s) ensures IsWhitespace(s[i]) {
        assert s[i] == s[1..][i - 1];
      }
    }
  }

  /** The number of whitespace characters `s` ends with. */
  function TrailingWhitespace(s: string): (n: nat)
    ensures n <= |s|
  {
    if s == [] || !IsWhitespace(s[|s| - 1]) then 0 else TrailingWhitespace(s[..|s| - 1]) + 1
  }

  /** `TrailingWhitespace` counts the longest all-whitespace suffix. */
  lemma {:induction false} TrailingWhitespaceSpec(s: string)
    ensures forall i :: |s| - TrailingWhitespace(s) <= i < |s| ==> IsWhitespace(s[i])
    ensures TrailingWhitespace(s) < |s| ==> !IsWhitespace(s[|s| - TrailingWhitespace(s) - 1])
  {
    if s != [] && IsWhitespace(s[|s| - 1]) {
      var p := s[..|s| - 1];
      TrailingWhitespaceSpec(p);
      forall i | |s| - TrailingWhitespace(s) <= i < |s| - 1 ensures IsWhitespace(s[i]) {
        assert s[i] == p[i];
      }
    }
  }

  /** Rust's `str::trim`: `s` without the whitespace at either end. */
  function Trim(s: string): (r: string)
    ensures |r| <= |s|
  {
    var a := LeadingWhitespace(s);
    if a == |s| then []
    else
      LeadingWhitespaceSpec(s);
      TrailingWhitespaceSpec(s);
      s[a..|s| - TrailingWhitespace(s)]
  }

  /** When `s` is not all leading whitespace, its leading and trailing
      whitespace do not overlap, and `Trim(s)` is the slice between them,
      whose end characters are not whitespace. */
  lemma TrimSlice(s: string)
    requires LeadingWhitespace(s) < |s|
    ensures var a, b := LeadingWhitespace(s), |s| - TrailingWhitespace(s);
            a < b && Trim(s) == s[a..b] && !IsWhitespace(s[a]) && !IsWhitespace(s[b - 1])
  {
    LeadingWhitespaceSpec(s);
    TrailingWhitespaceSpec(s);
  }

  /** The result of `Trim` is empty exactly when `s` is all whitespace, and
      otherwise it starts and ends with a character that is not whitespace. */
  lemma TrimShape(s: string)
    ensures IsTrimmed(Trim(s))
    ensures Trim(s) == [] <==> AllWhitespace(s)
    ensures var a := LeadingWhitespace(s);
            a + |Trim(s)| <= |s| && Trim(s) == s[a..a + |Trim(s)|]
  {
    LeadingWhitespaceSpec(s);
    var a := LeadingWhitespace(s);
    if a < |s| {
      TrimSlice(s);
      var b := |s| - TrailingWhitespace(s);
      assert Trim(s)[0] == s[a] && Trim(s)[b - a - 1] == s[b - 1];
    }
  }

  lemma {:induction false} LeadingWhitespaceOfPadded(w: string, t: string)
    requires AllWhitespace(w)
    requires t == [] || !IsWhitespace(t[0])
    ensures LeadingWhitespace(w + t) == |w|
  {
    if w != [] {
      assert (w + t)[1..] == w[1..] + t;
      LeadingWhitespaceOfPadded(w[1..], t);
    }
  }

  lemma {:induction false} TrailingWhitespaceOfPadded(t: string, w: string)
    requires AllWhitespace(w)
    requires t == [] || !IsWhitespace(t[|t| - 1])
    ensures TrailingWhitespace(t + w) == |w|
  {
    if w != [] {
      assert (t + w)[..|t + w| - 1] == t + w[..|w| - 1];
      TrailingWhitespaceOfPadded(t, w[..|w| - 1]);
    }
  }

  /** Trimming is determined by the shape of its result: a trimmed core
      surrounded by whitespace trims to exactly that core. */
  lemma TrimOfPadded(w1: string, t: string, w2: string)
    requires AllWhitespace(w1) && AllWhitespace(w2) && IsTrimmed(t)
    ensures Trim(w1 + t + w2) == t
  {
    var s := w1 + t + w2;
    if t == [] {
      assert AllWhitespace(s) by {
        forall k | 0 <= k < |s| ensures IsWhitespace(s[k]) {
          if k < |w1| { assert s[k] == w1[k]; } else { assert s[k] == w2[k - |w1|]; }
        }
      }
      TrimShape(s);
    } else {
      assert s == w1 + (t + w2);
      LeadingWhitespaceOfPadded(w1, t + w2);
      assert s == (w1 + t) + w2;
      TrailingWhitespaceOfPadded(w1 + t, w2);
      assert s[|w1|..|s| - |w2|] == t;
    }
  }

  /** A trimmed string is a fixed point, so `Trim` is idempotent. */
  lemma TrimIdempotent(s: string)
    ensures Trim(Trim(s)) == Trim(s)
  {
    var t := Trim(s);
    TrimShape(s);
    assert [] + t + [] == t;
    TrimOfPadded([], t, []);
  }

  /** Number of occurrences of `c` in `s`. */
  function Occurrences(s: string, c: char): nat {
    if s == [] then 0 else (if s[0] == c then 1 else 0) + Occurrences(s[1..], c)
  }

  /** Rust's `str::split(sep)` collected into a vector: the maximal `sep`-free
      pieces between separators, one more piece than there are separators. */
  function Split(s: string, sep: char): (parts: seq<string>)
    ensures |parts| == Occurrences(s, sep) + 1
    ensures forall k :: 0 <= k < |parts| ==> sep !in parts[k]
  {
    if s == [] then [[]]
    else
      var rest := Split(s[1..], sep);
      if s[0] == sep then [[]] + rest
      else
        var parts := [[s[0]] + rest[0]] + rest[1..];
        assert parts[1..] == rest[1..];
        parts
  }

  /** Joining the pieces back with `sep` gives `s` again. */
  lemma {:induction false} JoinSplit(s: string, sep: char)
    ensures Join(Split(s, sep), sep) == s
  {
    if s != [] {
      JoinSplit(s[1..], sep);
      var rest := Split(s[1..], sep);
      assert [s[0]] + s[1..] == s;
      if s[0] != sep {
        var parts := Split(s, sep);
        assert parts[1..] == rest[1..];
        if |rest| > 1 {
          assert Join(rest, sep) == rest[0] + [sep] + Join(rest[1..], sep);
        }
      }
    }
  }

  /** The inverse of `Split`: the pieces with `sep` between neighbours. */
  function Join(parts: seq<string>, sep: char): string
    requires |parts| >= 1
  {
    if |parts| == 1 then parts[0] else parts[0] + [sep] + Join(parts[1..], sep)
  }

  lemma {:induction false} SplitOfPiece(s: string, sep: char)
    requires sep !in s
    ensures Split(s, sep) == [s]
  {
    if s != [] {
      SplitOfPiece(s[1..], sep);
      assert [s[0]] + s[1..] == s;
    }
  }

  /** A separator splits the string into the pieces of either side. */
  lemma {:induction false} SplitAround(a: string, sep: char, b: string)
    ensures Split(a + [sep] + b, sep) == Split(a, sep) + Split(b, sep)
  {
    var s := a + [sep] + b;
    if a == [] {
      assert s[1..] == b;
    } else {
      assert s[1..] == a[1..] + [sep] + b;
      SplitAround(a[1..], sep, b);
    }
  }

  /** Splitting undoes joining when no piece contains the separator. */
  lemma {:induction false} SplitJoin(parts: seq<string>, sep: char)
    requires |parts| >= 1
    requires forall k :: 0 <= k < |parts| ==> sep !in parts[k]
    ensures Split(Join(parts, sep), sep) == parts
  {
    SplitOfPiece(parts[0], sep);
    if |parts| > 1 {
      SplitJoin(parts[1..], sep);
      SplitAround(parts[0], sep, Join(parts[1..], sep));
      assert [parts[0]] + parts[1..] == parts;
    }
  }

  /** Rust's `u8::to_ascii_lowercase` lifted to characters: only 'A'..'Z' change. */
  function ToAsciiLower(c: char): (r: char)
    ensures 'A' <= c <= 'Z' ==> 'a' <= r <= 'z' && r as int - c as int == 32
    ensures !('A' <= c <= 'Z') ==> r == c
  {
    if 'A' <= c <= 'Z' then (c as int + 32) as char else c
  }

  function AsciiLowercase(s: string): (r: string)
    ensures |r| == |s|
  {
    seq(|s|, i requires 0 <= i < |s| => ToAsciiLower(s[i]))
  }

  /** Rust's `str::eq_ignore_ascii_case`: equal lengths, and position by position
      the characters agree once ASCII upper case is folded to lower case. */
  predicate EqIgnoreAsciiCase(a: string, b: string): (eq: bool)
    ensures a == b ==> eq
    ensures eq ==> |a| == |b|
  {
    |a| == |b| && forall i :: 0 <= i < |a| ==> ToAsciiLower(a[i]) == ToAsciiLower(b[i])
  }

  /** Equivalently: the two ASCII-lowercased strings are equal. */
  lemma EqIgnoreAsciiCaseIffLowercaseEqual(a: string, b: string)
    ensures EqIgnoreAsciiCase(a, b) <==> AsciiLowercase(a) == AsciiLowercase(b)
  {
    if AsciiLowercase(a) == AsciiLowercase(b) {
      forall i | 0 <= i < |a| ensures ToAsciiLower(a[i]) == ToAsciiLower(b[i]) {
        assert AsciiLowercase(a)[i] == AsciiLowercase(b)[i];
      }
    }
  }
}
