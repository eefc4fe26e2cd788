/**
  String primitives the bot relies on: Python's whitespace-splitting `str.split()`,
  `" ".join`, `str.strip()`, `str.lower()`, `str.split("-")` (used implicitly by the
  date parser) and the binary string ordering SQLite applies to `entry_time`.
 */
module Text {

  /** The characters Python's `str.isspace()` accepts; `split()` and `strip()` use this set. */
  predicate IsSpace(c: char) {
    || c == ' '
    || ('\t' <= c <= '\r')
    || ('\U{1C}' <= c <= '\U{1F}')
    || c == '\U{85}' || c == '\U{A0}' || c == '\U{1680}'
    || ('\U{2000}' <= c <= '\U{200A}')
    || c == '\U{2028}' || c == '\U{2029}' || c == '\U{202F}' || c == '\U{205F}' || c == '\U{3000}'
  }

  predicate NoSpace(s: string) {
    forall i :: 0 <= i < |s| ==> !IsSpace(s[i])
  }

  /** What `split()` can produce: a non-empty run of non-whitespace characters. */
  predicate IsToken(s: string) {
    |s| > 0 && NoSpace(s)
  }

  predicate AllTokens(ts: seq<string>) {
    forall i :: 0 <= i < |ts| ==> IsToken(ts[i])
  }

  /** `s.split()`: the maximal runs of non-whitespace characters of `s`, in order. */
  function Tokenize(s: string): (r: seq<string>)
    ensures AllTokens(r)
    ensures |s| > 0 && !IsSpace(s[0]) ==> |r| > 0
  {
    if |s| == 0 then []
    else
      var rest := Tokenize(s[1..]);
      if IsSpace(s[0]) then rest
      else if |s| > 1 && !IsSpace(s[1]) then [[s[0]] + rest[0]] + rest[1..]
      else [[s[0]]] + rest
  }

  /** `" ".join(ts)`. */
  function JoinSpace(ts: seq<string>): (r: string)
    ensures AllTokens(ts) && |ts| > 0 ==> |r| > 0 && !IsSpace(r[0]) && !IsSpace(r[|r| - 1])
    ensures |ts| == 0 ==> r == ""
  {
    if |ts| == 0 then ""
    else if |ts| == 1 then ts[0]
    else ts[0] + " " + JoinSpace(ts[1..])
  }

  /** The characters of `s` that are not whitespace, in order. */
  function NonSpace(s: string): string {
    if |s| == 0 then ""
    else if IsSpace(s[0]) then NonSpace(s[1..])
    else [s[0]] + NonSpace(s[1..])
  }

  function Concat(ts: seq<string>): string {
    if |ts| == 0 then "" else ts[0] + Concat(ts[1..])
  }

  /** Tokenising loses exactly the whitespace: no other character is dropped, added or moved. */
  lemma {:induction false} TokenizeKeepsText(s: string)
    ensures Concat(Tokenize(s)) == NonSpace(s)
  {
    if |s| > 0 {
      TokenizeKeepsText(s[1..]);
      var rest := Tokenize(s[1..]);
      if !IsSpace(s[0]) && |s| > 1 && !IsSpace(s[1]) {
        assert ([[s[0]] + rest[0]] + rest[1..])[1..] == rest[1..];
        assert Concat(rest) == rest[0] + Concat(rest[1..]);
      } else if !IsSpace(s[0]) {
        assert ([[s[0]]] + rest)[1..] == rest;
      }
    }
  }

  /** A token directly followed by whitespace (or the end) is split off as one token. */
  lemma {:induction false} TokenizeToken(t: string, s: string)
    requires IsToken(t)
    requires |s| == 0 || IsSpace(s[0])
    ensures Tokenize(t + s) == [t] + Tokenize(s)
  {
    var ts := t + s;
    assert ts[1..] == t[1..] + s;
    if |t| == 1 {
      assert [ts[0]] == t;
    } else {
      TokenizeToken(t[1..], s);
      assert [ts[0]] + t[1..] == t;
    }
  }

  /** `split()` undoes `" ".join` on a list of tokens. */
  lemma {:induction false} TokenizeJoin(ts: seq<string>)
    requires AllTokens(ts)
    ensures Tokenize(JoinSpace(ts)) == ts
  {
    if |ts| == 1 {
      TokenizeToken(ts[0], "");
      assert ts[0] + "" == ts[0];
    } else if |ts| > 1 {
      var tail := JoinSpace(ts[1..]);
      TokenizeJoin(ts[1..]);
      assert (" " + tail)[1..] == tail;
      TokenizeToken(ts[0], " " + tail);
      assert ts[0] + " " + tail == ts[0] + (" " + tail);
      assert [ts[0]] + ts[1..] == ts;
    }
  }

  /** `s.lstrip()`: drops the leading whitespace and nothing else. */
  function TrimStart(s: string): (r: string)
    ensures |r| <= |s| && r == s[|s| - |r|..]
    ensures forall i :: 0 <= i < |s| - |r| ==> IsSpace(s[i])
    ensures |r| == 0 || !IsSpace(r[0])
  {
    if |s| > 0 && IsSpace(s[0]) then TrimStart(s[1..]) else s
  }

  /** `s.rstrip()`: drops the trailing whitespace and nothing else. */
  function TrimEnd(s: string): (r: string)
    ensures |r| <= |s| && r == s[..|r|]
    ensures forall i :: |r| <= i < |s| ==> IsSpace(s[i])
    ensures |r| == 0 || !IsSpace(r[|r| - 1])
  {
    if |s| > 0 && IsSpace(s[|s| - 1]) then TrimEnd(s[..|s| - 1]) else s
  }

  /** `s.strip()`. */
  function Strip(s: string): (r: string)
    ensures |r| == 0 || (!IsSpace(r[0]) && !IsSpace(r[|r| - 1]))
    ensures |r| <= |s|
    ensures |r| == 0 <==> forall i :: 0 <= i < |s| ==> IsSpace(s[i])
  {
    TrimEnd(TrimStart(s))
  }

  /** Where the slice `strip()` keeps begins and ends. */
  lemma StripBounds(s: string) returns (a: nat, b: nat)
    ensures a <= b <= |s| && Strip(s) == s[a..b]
    ensures forall i :: 0 <= i < a ==> IsSpace(s[i])
    ensures forall i :: b <= i < |s| ==> IsSpace(s[i])
  {
    var t := TrimStart(s);
    var r := TrimEnd(t);
    a := |s| - |t|;
    b := a + |r|;
    assert t == s[a..];
    assert r == t[..|r|];
    assert t[..|r|] == s[a..b];
    SuffixSpaces(s, a, t, |r|);
  }

  /** Whitespace at the end of a suffix of `s` is whitespace at the end of `s`. */
  lemma SuffixSpaces(s: string, a: nat, t: string, k: nat)
    requires a <= |s| && t == s[a..]
    requires forall j :: k <= j < |t| ==> IsSpace(t[j])
    ensures forall i :: a + k <= i < |s| ==> IsSpace(s[i])
  {
    forall i | a + k <= i < |s|
      ensures IsSpace(s[i])
    {
      assert s[i] == t[i - a];
    }
  }

  /** `strip()` removes whitespace at both ends and nothing else: what is left is one slice of `s`. */
  lemma StripIsSlice(s: string)
    ensures exists a, b ::
      && 0 <= a <= b <= |s| && Strip(s) == s[a..b]
      && (forall i :: 0 <= i < a ==> IsSpace(s[i]))
      && (forall i :: b <= i < |s| ==> IsSpace(s[i]))
  {
    var a, b := StripBounds(s);
  }

  /** `strip()` changes nothing on a string that neither starts nor ends with whitespace. */
  lemma StripTrimmed(s: string)
    requires |s| == 0 || (!IsSpace(s[0]) && !IsSpace(s[|s| - 1]))
    ensures Strip(s) == s
  {
  }

  /** Joining tokens gives a stripped string, empty exactly when there were no tokens. */
  lemma StripJoinedTokens(ts: seq<string>)
    requires AllTokens(ts)
    ensures Strip(JoinSpace(ts)) == JoinSpace(ts)
    ensures JoinSpace(ts) == "" <==> |ts| == 0
  {
    StripTrimmed(JoinSpace(ts));
  }

  /** ASCII part of `str.lower()`. */
  function LowerChar(c: char): (r: char)
    ensures 'A' <= c <= 'Z' ==> 'a' <= r <= 'z'
    ensures !('A' <= c <= 'Z') ==> r == c
  {
    if 'A' <= c <= 'Z' then (c as int + 32) as char else c
  }

  function Lower(s: string): (r: string)
    ensures |r| == |s|
    ensures forall i :: 0 <= i < |r| ==> !('A' <= r[i] <= 'Z')
  {
    seq(|s|, i requires 0 <= i < |s| => LowerChar(s[i]))
  }

  predicate NoAsciiLetter(s: string) {
    forall i :: 0 <= i < |s| ==> !('A' <= s[i] <= 'Z') && !('a' <= s[i] <= 'z')
  }

  /** A word without Latin letters (every command word of the bot) is matched by `lower()` only when typed exactly. */
  lemma LowerMatchesExactly(w: string, t: string)
    requires NoAsciiLetter(w)
    ensures Lower(t) == w <==> t == w
  {
    if Lower(t) == w {
      forall i | 0 <= i < |t|
        ensures t[i] == w[i]
      {
        assert Lower(t)[i] == LowerChar(t[i]);
      }
    }
    if t == w {
      forall i | 0 <= i < |t|
        ensures Lower(t)[i] == w[i]
      {
      }
    }
  }

  /** `s.split(sep)`: the fields of `s` between occurrences of `sep`. */
  function SplitOn(s: string, sep: char): (r: seq<string>)
    ensures |r| > 0
    ensures forall i :: 0 <= i < |r| ==> sep !in r[i]
  {
    if |s| == 0 then [""]
    else
      var rest := SplitOn(s[1..], sep);
      if s[0] == sep then [""] + rest
      else [[s[0]] + rest[0]] + rest[1..]
  }

  /** `sep.join(fs)`. */
  function JoinOn(fs: seq<string>, sep: char): string
    requires |fs| > 0
  {
    if |fs| == 1 then fs[0] else fs[0] + [sep] + JoinOn(fs[1..], sep)
  }

  /** Splitting loses nothing: joining the fields back gives the original string. */
  lemma {:induction false} JoinSplitOn(s: string, sep: char)
    ensures JoinOn(SplitOn(s, sep), sep) == s
  {
    if |s| > 0 {
      JoinSplitOn(s[1..], sep);
      var rest := SplitOn(s[1..], sep);
      if s[0] == sep {
        assert ([""] + rest)[1..] == rest;
      } else {
        var r := [[s[0]] + rest[0]] + rest[1..];
        if |rest| > 1 {
          assert r[1..] == rest[1..];
          assert JoinOn(rest, sep) == rest[0] + [sep] + JoinOn(rest[1..], sep);
        }
      }
    }
  }

  /** A field free of `sep` followed by `sep` is split off as one field. */
  lemma {:induction false} SplitOnField(a: string, b: string, sep: char)
    requires sep !in a
    ensures SplitOn(a + [sep] + b, sep) == [a] + SplitOn(b, sep)
  {
    var s := a + [sep] + b;
    if |a| == 0 {
      assert s == [sep] + b;
      assert s[1..] == b;
    } else {
      assert s[1..] == a[1..] + [sep] + b;
      SplitOnField(a[1..], b, sep);
      assert [a[0]] + a[1..] == a;
    }
  }

  /** A string free of `sep` is one field. */
  lemma {:induction false} SplitOnWhole(a: string, sep: char)
    requires sep !in a
    ensures SplitOn(a, sep) == [a]
  {
    if |a| > 0 {
      SplitOnWhole(a[1..], sep);
      assert [a[0]] + a[1..] == a;
    }
  }

  /** Splitting undoes joining when no field contains the separator. */
  lemma {:induction false} SplitJoinOn(fs: seq<string>, sep: char)
    requires |fs| > 0
    requires forall i :: 0 <= i < |fs| ==> sep !in fs[i]
    ensures SplitOn(JoinOn(fs, sep), sep) == fs
  {
    if |fs| == 1 {
      SplitOnWhole(fs[0], sep);
    } else {
      SplitJoinOn(fs[1..], sep);
      SplitOnField(fs[0], JoinOn(fs[1..], sep), sep);
      assert [fs[0]] + fs[1..] == fs;
    }
  }

  /**
    Code-point lexicographic order: SQLite's BINARY collation compares UTF-8 bytes,
    and UTF-8 byte order coincides with code-point order.
   */
  predicate StrLess(a: string, b: string) {
    if |a| == 0 then |b| > 0
    else if |b| == 0 then false
    else a[0] < b[0] || (a[0] == b[0] && StrLess(a[1..], b[1..]))
  }

  lemma {:induction false} StrLessIrreflexive(a: string)
    ensures !StrLess(a, a)
  {
    if |a| > 0 {
      StrLessIrreflexive(a[1..]);
    }
  }

  lemma {:induction false} StrLessTrichotomy(a: string, b: string)
    ensures StrLess(a, b) || a == b || StrLess(b, a)
  {
    if |a| > 0 && |b| > 0 && a[0] == b[0] {
      StrLessTrichotomy(a[1..], b[1..]);
      if a[1..] == b[1..] {
        assert a == [a[0]] + a[1..] && b == [b[0]] + b[1..];
      }
    }
  }

  lemma {:induction false} StrLessTransitive(a: string, b: string, c: string)
    requires StrLess(a, b) && StrLess(b, c)
    ensures StrLess(a, c)
  {
    if |a| > 0 && a[0] == b[0] && b[0] == c[0] {
      StrLessTransitive(a[1..], b[1..], c[1..]);
    }
  }
}
