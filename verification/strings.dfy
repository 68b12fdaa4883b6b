/** The string operations the configuration and shell parsers rely on:
    Rust's `str::trim` and `str::to_ascii_lowercase`. */
module Strings {

  /** `char::is_whitespace`: the characters with the Unicode White_Space property. */
  predicate IsWhitespace(c: char) {
    || c == ' ' || ('\t' <= c <= '\r')
    || c == '\U{0085}' || c == '\U{00A0}' || c == '\U{1680}'
    || ('\U{2000}' <= c <= '\U{200A}')
    || c == '\U{2028}' || c == '\U{2029}' || c == '\U{202F}' || c == '\U{205F}' || c == '\U{3000}'
  }

  predicate AllWhitespace(s: string) {
    forall i :: 0 <= i < |s| ==> IsWhitespace(s[i])
  }

  /** Drops the leading whitespace: what is left is a suffix that starts with
      a non-whitespace character, or is empty. */
  function TrimStart(s: string): (r: string)
    ensures |r| <= |s| && r == s[|s| - |r|..]
    ensures AllWhitespace(s[..|s| - |r|])
    ensures |r| > 0 ==> !IsWhitespace(r[0])
  {
    if |s| > 0 && IsWhitespace(s[0]) then TrimStart(s[1..]) else s
  }

  /** Drops the trailing whitespace: what is left is a prefix that ends with
      a non-whitespace character, or is empty. */
  function TrimEnd(s: string): (r: string)
    ensures |r| <= |s| && r == s[..|r|]
    ensures AllWhitespace(s[|r|..])
    ensures |r| > 0 ==> !IsWhitespace(r[|r| - 1])
  {
    if |s| > 0 && IsWhitespace(s[|s| - 1]) then TrimEnd(s[..|s| - 1]) else s
  }

  /** `str::trim`: the slice between the leading and the trailing whitespace. */
  function Trim(s: string): (r: string)
    ensures exists i, j :: 0 <= i <= j <= |s| && r == s[i..j] && AllWhitespace(s[..i]) && AllWhitespace(s[j..])
    ensures |r| > 0 ==> !IsWhitespace(r[0]) && !IsWhitespace(r[|r| - 1])
  {
    var t := TrimStart(s);
    var r := TrimEnd(t);
    SliceBetweenWhitespace(s, t, r);
    r
  }

  /** A whitespace-free-ended prefix `r` of a suffix `t` of `s`, with only
      whitespace cut off on either side, is a slice of `s` between whitespace. */
  lemma SliceBetweenWhitespace(s: string, t: string, r: string)
    requires |t| <= |s| && t == s[|s| - |t|..] && AllWhitespace(s[..|s| - |t|])
    requires |r| <= |t| && r == t[..|r|] && AllWhitespace(t[|r|..])
    ensures exists i, j :: 0 <= i <= j <= |s| && r == s[i..j] && AllWhitespace(s[..i]) && AllWhitespace(s[j..])
  {
    var i := |s| - |t|;
    var j := i + |r|;
    PrefixOfSuffix(s, t, r);
    assert 0 <= i <= j <= |s| && r == s[i..j] && AllWhitespace(s[..i]) && AllWhitespace(s[j..]);
  }

  /** A prefix `r` of a suffix `t` of `s` is a slice of `s`, and what follows
      `r` in `t` is what follows that slice in `s`. */
  lemma PrefixOfSuffix(s: string, t: string, r: string)
    requires |t| <= |s| && t == s[|s| - |t|..]
    requires |r| <= |t| && r == t[..|r|]
    ensures r == s[|s| - |t|..|s| - |t| + |r|]
    ensures s[|s| - |t| + |r|..] == t[|r|..]
  {
  }

  lemma {:induction false} TrimStartPadded(pre: string, s: string)
    requires AllWhitespace(pre)
    ensures TrimStart(pre + s) == TrimStart(s)
  {
    if |pre| > 0 {
      assert (pre + s)[0] == pre[0];
      assert (pre + s)[1..] == pre[1..] + s;
      TrimStartPadded(pre[1..], s);
    } else {
      assert pre + s == s;
    }
  }

  lemma {:induction false} TrimEndPadded(s: string, post: string)
    requires AllWhitespace(post)
    ensures TrimEnd(s + post) == TrimEnd(s)
  {
    if |post| > 0 {
      assert (s + post)[|s + post| - 1] == post[|post| - 1];
      assert (s + post)[..|s + post| - 1] == s + post[..|post| - 1];
      TrimEndPadded(s, post[..|post| - 1]);
    } else {
      assert s + post == s;
    }
  }

  lemma {:induction false} TrimStartAppend(s: string, post: string)
    ensures !AllWhitespace(s) ==> TrimStart(s + post) == TrimStart(s) + post
    ensures AllWhitespace(s) ==> TrimStart(s + post) == TrimStart(post)
  {
    if AllWhitespace(s) {
      TrimStartPadded(s, post);
    } else {
      assert |s| > 0;
      if IsWhitespace(s[0]) {
        assert (s + post)[1..] == s[1..] + post;
        assert !AllWhitespace(s[1..]) by {
          var k :| 0 <= k < |s| && !IsWhitespace(s[k]);
          assert s[1..][k - 1] == s[k];
        }
        TrimStartAppend(s[1..], post);
      }
    }
  }

  /** Surrounding whitespace makes no difference to `trim`. */
  lemma TrimPadded(pre: string, s: string, post: string)
    requires AllWhitespace(pre) && AllWhitespace(post)
    ensures Trim(pre + s + post) == Trim(s)
  {
    assert pre + s + post == pre + (s + post);
    TrimStartPadded(pre, s + post);
    TrimStartAppend(s, post);
    if AllWhitespace(s) {
      TrimStartPadded(post, []);
      assert post + [] == post;
      TrimStartPadded(s, []);
      assert s + [] == s;
    } else {
      TrimEndPadded(TrimStart(s), post);
    }
  }

  /** A string that neither starts nor ends with whitespace is its own trim. */
  lemma TrimUnpadded(s: string)
    requires |s| > 0 && !IsWhitespace(s[0]) && !IsWhitespace(s[|s| - 1])
    ensures Trim(s) == s
  {
    assert TrimStart(s) == s;
    assert TrimEnd(s) == s;
  }

  /** `trim` recovers a word from between whitespace padding. */
  lemma TrimBetween(pre: string, word: string, post: string, padded: string)
    requires AllWhitespace(pre) && AllWhitespace(post) && padded == pre + word + post
    requires |word| > 0 && !IsWhitespace(word[0]) && !IsWhitespace(word[|word| - 1])
    ensures Trim(padded) == word
  {
    TrimPadded(pre, word, post);
    TrimUnpadded(word);
  }

  /** `u8::to_ascii_lowercase` on a character: only 'A'..'Z' change. */
  function AsciiLower(c: char): char {
    if 'A' <= c <= 'Z' then (c as int - 'A' as int + 'a' as int) as char else c
  }

  /** `str::to_ascii_lowercase`. */
  function ToAsciiLowercase(s: string): string {
    seq(|s|, i requires 0 <= i < |s| => AsciiLower(s[i]))
  }

  lemma LowerKeepsWhitespace(c: char)
    ensures IsWhitespace(AsciiLower(c)) == IsWhitespace(c)
  {
  }

  lemma {:induction false} LowerTrimStart(s: string)
    ensures ToAsciiLowercase(TrimStart(s)) == TrimStart(ToAsciiLowercase(s))
  {
    var l := ToAsciiLowercase(s);
    if |s| > 0 {
      LowerKeepsWhitespace(s[0]);
      assert l[0] == AsciiLower(s[0]);
      if IsWhitespace(s[0]) {
        assert l[1..] == ToAsciiLowercase(s[1..]);
        LowerTrimStart(s[1..]);
      }
    }
  }

  lemma {:induction false} LowerTrimEnd(s: string)
    ensures ToAsciiLowercase(TrimEnd(s)) == TrimEnd(ToAsciiLowercase(s))
  {
    var l := ToAsciiLowercase(s);
    if |s| > 0 {
      LowerKeepsWhitespace(s[|s| - 1]);
      assert l[|s| - 1] == AsciiLower(s[|s| - 1]);
      if IsWhitespace(s[|s| - 1]) {
        assert l[..|s| - 1] == ToAsciiLowercase(s[..|s| - 1]);
        LowerTrimEnd(s[..|s| - 1]);
      }
    }
  }

  /** Lowercasing and trimming commute, because no whitespace character is a
      letter 'A'..'Z'. */
  lemma LowerTrimCommute(s: string)
    ensures ToAsciiLowercase(Trim(s)) == Trim(ToAsciiLowercase(s))
  {
    LowerTrimStart(s);
    LowerTrimEnd(TrimStart(s));
  }

  /** Lowercasing twice changes nothing more. */
  lemma LowerIdempotent(s: string)
    ensures ToAsciiLowercase(ToAsciiLowercase(s)) == ToAsciiLowercase(s)
  {
  }

  /** Trimmed and ASCII-lowercased, the normalisation the configuration parser applies. */
  function Normalize(s: string): string {
    ToAsciiLowercase(Trim(s))
  }

  /** Normalising is insensitive to ASCII case and to surrounding whitespace. */
  lemma NormalizeInvariant(pre: string, s: string, post: string)
    requires AllWhitespace(pre) && AllWhitespace(post)
    ensures Normalize(pre + s + post) == Normalize(s)
    ensures Normalize(ToAsciiLowercase(s)) == Normalize(s)
  {
    TrimPadded(pre, s, post);
    LowerTrimCommute(s);
    LowerIdempotent(Trim(s));
  }
}
