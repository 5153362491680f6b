/** String helpers the engine relies on: `trim`, `toLowerCase`, the attribute
    normalisation built from them, and `split` on a one-character separator. */
module Text {

  /** The characters that `String.prototype.trim` removes: the white space and line
      terminator characters of ECMAScript (the space separators U+2000 to U+200A included). */
  predicate IsWhite(c: char)
  {
    || c == ' ' || c == '\t' || c == '\n' || c == '\r' || c == '\U{000B}' || c == '\U{000C}'
    || c == '\U{00A0}' || c == '\U{1680}' || c == '\U{2028}' || c == '\U{2029}' || c == '\U{202F}'
    || c == '\U{205F}' || c == '\U{3000}' || c == '\U{FEFF}'
    || '\U{2000}' <= c <= '\U{200A}'
  }

  /** `s` has no white space at either end. */
  predicate Trimmed(s: string)
  {
    |s| == 0 || (!IsWhite(s[0]) && !IsWhite(s[|s| - 1]))
  }

  /** Drops the leading white space. */
  function TrimStart(s: string): string
  {
    if |s| > 0 && IsWhite(s[0]) then TrimStart(s[1..]) else s
  }

  /** TrimStart returns the suffix of `s` that starts at its first non-white character. */
  lemma {:induction false} TrimStartFacts(s: string)
    ensures |TrimStart(s)| <= |s| && TrimStart(s) == s[|s| - |TrimStart(s)|..]
    ensures |TrimStart(s)| == 0 || !IsWhite(TrimStart(s)[0])
    ensures forall k :: 0 <= k < |s| - |TrimStart(s)| ==> IsWhite(s[k])
  {
    if |s| > 0 && IsWhite(s[0]) {
      TrimStartFacts(s[1..]);
    }
  }

  /** Drops the trailing white space. */
  function TrimEnd(s: string): string
  {
    if |s| > 0 && IsWhite(s[|s| - 1]) then TrimEnd(s[..|s| - 1]) else s
  }

  /** TrimEnd returns the prefix of `s` that ends at its last non-white character. */
  lemma {:induction false} TrimEndFacts(s: string)
    ensures |TrimEnd(s)| <= |s| && TrimEnd(s) == s[..|TrimEnd(s)|]
    ensures |TrimEnd(s)| == 0 || !IsWhite(TrimEnd(s)[|TrimEnd(s)| - 1])
    ensures forall k :: |TrimEnd(s)| <= k < |s| ==> IsWhite(s[k])
  {
    if |s| > 0 && IsWhite(s[|s| - 1]) {
      TrimEndFacts(s[..|s| - 1]);
    }
  }

  /** `s.trim()`. */
  function Trim(s: string): string
  {
    TrimEnd(TrimStart(s))
  }

  /** `trim` leaves no white space at either end and returns a slice of its input. */
  lemma TrimFacts(s: string)
    ensures Trimmed(Trim(s))
    ensures |Trim(s)| <= |s|
    ensures exists i, j :: 0 <= i <= j <= |s| && Trim(s) == s[i..j]
  {
    var t := TrimStart(s);
    var r := TrimEnd(t);
    TrimStartFacts(s);
    TrimEndFacts(t);
    if |r| > 0 {
      assert r[0] == t[0];
    }
    assert r == s[|s| - |t|..|s| - |t| + |r|];
  }

  /** Trimming a string that has no white space at its ends changes nothing. */
  lemma TrimOfTrimmed(s: string)
    requires Trimmed(s)
    ensures Trim(s) == s
  {
  }

  /** A string made of white space only trims to the empty string. */
  lemma {:induction false} TrimAllWhite(s: string)
    requires forall k :: 0 <= k < |s| ==> IsWhite(s[k])
    ensures Trim(s) == []
  {
    if |s| > 0 {
      TrimAllWhite(s[1..]);
    }
  }

  /** The ASCII part of `toLowerCase`. */
  function LowerChar(c: char): char
  {
    if 'A' <= c <= 'Z' then (c as int - 'A' as int + 'a' as int) as char else c
  }

  /** `s.toLowerCase()` on ASCII letters. */
  function ToLower(s: string): string
  {
    if |s| == 0 then [] else [LowerChar(s[0])] + ToLower(s[1..])
  }

  /** Lower-casing works character by character: it keeps the length, leaves no upper-case
      ASCII letter, and keeps white space exactly where it was. */
  lemma {:induction false} ToLowerFacts(s: string)
    ensures |ToLower(s)| == |s|
    ensures forall k :: 0 <= k < |s| ==> ToLower(s)[k] == LowerChar(s[k])
    ensures forall k :: 0 <= k < |s| ==> !('A' <= ToLower(s)[k] <= 'Z')
    ensures forall k :: 0 <= k < |s| ==> (IsWhite(ToLower(s)[k]) <==> IsWhite(s[k]))
  {
    if |s| > 0 {
      ToLowerFacts(s[1..]);
    }
  }

  /** A string without upper-case ASCII letters is its own lower case. */
  lemma LowerOfLower(s: string)
    requires forall k :: 0 <= k < |s| ==> !('A' <= s[k] <= 'Z')
    ensures ToLower(s) == s
  {
    ToLowerFacts(s);
  }

  /** `normalize = value.trim().toLowerCase()`: attributes are compared through it. */
  function Normalize(s: string): string
  {
    ToLower(Trim(s))
  }

  /** A normalised string has no white space at its ends and no upper-case ASCII letter,
      and is no longer than the original. */
  lemma NormalizeFacts(s: string)
    ensures Trimmed(Normalize(s))
    ensures |Normalize(s)| <= |s|
    ensures forall k :: 0 <= k < |Normalize(s)| ==> !('A' <= Normalize(s)[k] <= 'Z')
  {
    TrimFacts(s);
    ToLowerFacts(Trim(s));
  }

  /** Normalising twice is normalising once, so normalised attributes are canonical. */
  lemma NormalizeIdempotent(s: string)
    ensures Normalize(Normalize(s)) == Normalize(s)
  {
    var n := Normalize(s);
    NormalizeFacts(s);
    TrimOfTrimmed(n);
    LowerOfLower(n);
  }

  /** Two strings that differ only in ASCII letter case and surrounding white space have
      the same normalisation. */
  lemma NormalizeIgnoresCaseAndPadding(s: string, pre: string, post: string)
    requires forall k :: 0 <= k < |pre| ==> IsWhite(pre[k])
    requires forall k :: 0 <= k < |post| ==> IsWhite(post[k])
    requires Trimmed(s)
    ensures Normalize(pre + ToLower(s) + post) == Normalize(s)
  {
    var low := ToLower(s);
    TrimOfTrimmed(s);
    ToLowerFacts(s);
    LowerOfLower(low);
    TrimPadded(pre, low, post);
  }

  /** Trimming removes exactly the white padding around a trimmed string. */
  lemma TrimPadded(pre: string, mid: string, post: string)
    requires forall k :: 0 <= k < |pre| ==> IsWhite(pre[k])
    requires forall k :: 0 <= k < |post| ==> IsWhite(post[k])
    requires Trimmed(mid)
    ensures Trim(pre + mid + post) == mid
  {
    var rest := mid + post;
    var t := pre + rest;
    assert pre + mid + post == t;
    if |mid| == 0 {
      assert forall k :: 0 <= k < |t| ==> IsWhite(t[k]);
      TrimAllWhite(t);
    } else {
      assert t[|pre|] == mid[0];
      TrimStartAt(t, |pre|);
      assert t[|pre|..] == rest;
      TrimEndAt(rest, |mid|);
      assert rest[..|mid|] == mid;
    }
  }

  /** TrimStart stops at the first non-white character. */
  lemma {:induction false} TrimStartAt(s: string, i: nat)
    requires i < |s| && !IsWhite(s[i])
    requires forall k :: 0 <= k < i ==> IsWhite(s[k])
    ensures TrimStart(s) == s[i..]
  {
    if i > 0 {
      TrimStartAt(s[1..], i - 1);
    }
  }

  /** TrimEnd stops after the last non-white character. */
  lemma {:induction false} TrimEndAt(s: string, j: nat)
    requires 0 < j <= |s| && !IsWhite(s[j - 1])
    requires forall k :: j <= k < |s| ==> IsWhite(s[k])
    ensures TrimEnd(s) == s[..j]
  {
    if j < |s| {
      TrimEndAt(s[..|s| - 1], j);
    }
  }

  /** `parts` joined with `sep` between consecutive parts. */
  function Join(parts: seq<string>, sep: char): string
  {
    if |parts| == 0 then []
    else if |parts| == 1 then parts[0]
    else parts[0] + [sep] + Join(parts[1..], sep)
  }

  /** `s.split(sep)` for a one-character separator: the pieces between separators, always
      at least one. */
  function Split(s: string, sep: char): (r: seq<string>)
    ensures |r| >= 1
  {
    if |s| == 0 then [[]]
    else
      var rest := Split(s[1..], sep);
      if s[0] == sep then [[]] + rest
      else [[s[0]] + rest[0]] + rest[1..]
  }

  /** No piece of a split holds the separator. */
  lemma {:induction false} SplitPieces(s: string, sep: char)
    ensures forall p :: p in Split(s, sep) ==> sep !in p
  {
    if |s| > 0 {
      SplitPieces(s[1..], sep);
      var rest := Split(s[1..], sep);
      if s[0] != sep {
        var r := Split(s, sep);
        assert forall p :: p in r ==> p == r[0] || p in rest;
      }
    }
  }

  /** Joining the pieces of a split with the separator gives the string back. */
  lemma {:induction false} JoinSplit(s: string, sep: char)
    ensures Join(Split(s, sep), sep) == s
  {
    if |s| > 0 {
      JoinSplit(s[1..], sep);
      var rest := Split(s[1..], sep);
      if s[0] == sep {
        assert s == [sep] + s[1..];
      } else {
        var r := Split(s, sep);
        assert r[0] == [s[0]] + rest[0];
        if |rest| == 1 {
          assert s == [s[0]] + rest[0];
        } else {
          assert rest == [rest[0]] + rest[1..];
          assert Join(rest, sep) == rest[0] + [sep] + Join(rest[1..], sep);
          assert r[1..] == rest[1..];
          assert s == [s[0]] + rest[0] + [sep] + Join(rest[1..], sep);
        }
      }
    }
  }

  /** Splitting a joined list of separator-free pieces gives the pieces back. */
  lemma {:induction false} SplitJoin(parts: seq<string>, sep: char)
    requires |parts| >= 1
    requires forall p :: p in parts ==> sep !in p
    ensures Split(Join(parts, sep), sep) == parts
  {
    if |parts| == 1 {
      SplitNoSeparator(parts[0], sep);
    } else {
      SplitJoin(parts[1..], sep);
      SplitAfterPiece(parts[0], Join(parts[1..], sep), sep);
      assert parts == [parts[0]] + parts[1..];
    }
  }

  /** A string without the separator splits into itself. */
  lemma {:induction false} SplitNoSeparator(s: string, sep: char)
    requires sep !in s
    ensures Split(s, sep) == [s]
  {
    if |s| > 0 {
      SplitNoSeparator(s[1..], sep);
      assert [s[0]] + s[1..] == s;
    }
  }

  /** A separator-free piece followed by the separator is split off as the first piece. */
  lemma {:induction false} SplitAfterPiece(a: string, b: string, sep: char)
    requires sep !in a
    ensures Split(a + [sep] + b, sep) == [a] + Split(b, sep)
  {
    if |a| == 0 {
      assert a + [sep] + b == [sep] + b;
      assert ([sep] + b)[1..] == b;
    } else {
      SplitAfterPiece(a[1..], b, sep);
      assert (a + [sep] + b)[1..] == a[1..] + [sep] + b;
      assert [a[0]] + a[1..] == a;
    }
  }
}
