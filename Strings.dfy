/** The JavaScript string built-ins the converter relies on: `toLowerCase`,
    `trim`, `split` and `join` on a one-character separator, `lastIndexOf`,
    `endsWith`-style suffix tests and a global replace of `"` by `""`. */
module Strings {

  /** Regrouping a concatenation, a step of `JoinSnoc`'s proof. */
  lemma AppendAssoc<T>(x: seq<T>, y: seq<T>, z: seq<T>)
    ensures (x + y) + z == x + (y + z)
  {
  }

  /** The code points ECMAScript counts as WhiteSpace or LineTerminator,
      which is exactly what `String.prototype.trim` removes. */
  predicate IsWhitespace(c: char) {
    c in {'\t', '\n', '\U{000B}', '\U{000C}', '\r', ' ', '\U{00A0}', '\U{1680}',
          '\U{2000}', '\U{2001}', '\U{2002}', '\U{2003}', '\U{2004}', '\U{2005}',
          '\U{2006}', '\U{2007}', '\U{2008}', '\U{2009}', '\U{200A}', '\U{2028}',
          '\U{2029}', '\U{202F}', '\U{205F}', '\U{3000}', '\U{FEFF}'}
  }

  /** Neither end of `s` is whitespace. */
  predicate IsTrimmed(s: string) {
    s == [] || (!IsWhitespace(s[0]) && !IsWhitespace(s[|s| - 1]))
  }

  predicate AllWhitespace(s: string) {
    forall i :: 0 <= i < |s| ==> IsWhitespace(s[i])
  }

  function TrimStart(s: string): string {
    if s != [] && IsWhitespace(s[0]) then TrimStart(s[1..]) else s
  }

  function TrimEnd(s: string): string {
    if s != [] && IsWhitespace(s[|s| - 1]) then TrimEnd(s[..|s| - 1]) else s
  }

  /** `TrimStart` drops a whitespace prefix, as long as possible. */
  lemma {:induction false} TrimStartShape(s: string)
    ensures |TrimStart(s)| <= |s| && TrimStart(s) == s[|s| - |TrimStart(s)|..]
    ensures AllWhitespace(s[..|s| - |TrimStart(s)|])
    ensures TrimStart(s) != [] ==> !IsWhitespace(TrimStart(s)[0])
  {
    if s != [] && IsWhitespace(s[0]) {
      TrimStartShape(s[1..]);
      var n := |s| - |TrimStart(s)|;
      assert forall i :: 1 <= i < n ==> s[..n][i] == s[1..][..n - 1][i - 1];
    }
  }

  /** `TrimEnd` drops a whitespace suffix, as long as possible. */
  lemma {:induction false} TrimEndShape(s: string)
    ensures |TrimEnd(s)| <= |s| && TrimEnd(s) == s[..|TrimEnd(s)|]
    ensures AllWhitespace(s[|TrimEnd(s)|..])
    ensures TrimEnd(s) != [] ==> !IsWhitespace(TrimEnd(s)[|TrimEnd(s)| - 1])
  {
    if s != [] && IsWhitespace(s[|s| - 1]) {
      TrimEndShape(s[..|s| - 1]);
      assert s[|TrimEnd(s)|..] == s[..|s| - 1][|TrimEnd(s)|..] + [s[|s| - 1]];
    }
  }

  /** `s.trim()`: whitespace cut from both ends. */
  function Trim(s: string): string {
    TrimStart(TrimEnd(s))
  }

  lemma TrimIsTrimmed(s: string)
    ensures IsTrimmed(Trim(s))
  {
    var e := TrimEnd(s);
    TrimEndShape(s);
    TrimStartShape(e);
  }

  /** `s.trim().length > 0` holds exactly when `s` has a non-whitespace character. */
  lemma TrimEmptyIff(s: string)
    ensures Trim(s) == [] <==> AllWhitespace(s)
  {
    var e := TrimEnd(s);
    TrimEndShape(s);
    TrimStartShape(e);
    assert e[..|e|] == e;
    assert s[0..] == s;
  }

  /** The first character of `s.trim()` is the first non-whitespace character of `s`. */
  lemma TrimFirst(s: string, k: nat)
    requires k < |s| && !IsWhitespace(s[k]) && AllWhitespace(s[..k])
    ensures Trim(s) != [] && Trim(s)[0] == s[k]
  {
    var e := TrimEnd(s);
    TrimEndShape(s);
    TrimStartShape(e);
    assert e[k] == s[k];
    var r := TrimStart(e);
    var n := |e| - |r|;
    assert r[0] == e[n];
  }

  lemma TrimOfTrimmed(s: string)
    requires IsTrimmed(s)
    ensures Trim(s) == s
  {
  }

  /** Trimming adds no character. */
  lemma TrimSubset(s: string, c: char)
    requires c !in s
    ensures c !in Trim(s)
  {
    var e := TrimEnd(s);
    TrimEndShape(s);
    TrimStartShape(e);
    assert forall k :: 0 <= k < |e| ==> e[k] == s[k];
    var r := TrimStart(e);
    assert forall k :: 0 <= k < |r| ==> r[k] == e[|e| - |r| + k];
  }

  /** ASCII upper-case letters map to lower case; every other character is kept. */
  function LowerChar(c: char): char {
    if 'A' <= c <= 'Z' then (c as int + 32) as char else c
  }

  /** `s.toLowerCase()` restricted to ASCII letters. */
  function ToLower(s: string): (r: string)
    ensures |r| == |s| && forall i :: 0 <= i < |s| ==> r[i] == LowerChar(s[i])
  {
    if s == [] then [] else [LowerChar(s[0])] + ToLower(s[1..])
  }

  lemma ToLowerIdempotent(s: string)
    ensures ToLower(ToLower(s)) == ToLower(s)
  {
  }

  lemma ToLowerAppend(a: string, b: string)
    ensures ToLower(a + b) == ToLower(a) + ToLower(b)
  {
    assert forall i :: 0 <= i < |a + b| ==> ToLower(a + b)[i] == (ToLower(a) + ToLower(b))[i];
  }

  predicate EndsWith(s: string, suffix: string) {
    |suffix| <= |s| && s[|s| - |suffix|..] == suffix
  }

  /** `s.split(sep)` for a one-character separator: the maximal pieces between
      separators, always at least one (possibly empty) piece. */
  function Split(s: string, sep: char): (parts: seq<string>)
    ensures |parts| >= 1
    ensures forall k :: 0 <= k < |parts| ==> sep !in parts[k]
  {
    if s == [] then [""]
    else
      var r, c := Split(s[..|s| - 1], sep), s[|s| - 1];
      if c == sep then r + [""] else r[..|r| - 1] + [r[|r| - 1] + [c]]
  }

  /** `parts.join(sep)` for a one-character separator. */
  function Join(parts: seq<string>, sep: char): string {
    if parts == [] then ""
    else if |parts| == 1 then parts[0]
    else Join(parts[..|parts| - 1], sep) + [sep] + parts[|parts| - 1]
  }

  lemma JoinSnoc(parts: seq<string>, x: string, sep: char)
    requires |parts| >= 1
    ensures Join(parts + [x], sep) == Join(parts, sep) + [sep] + x
  {
    assert (parts + [x])[..|parts|] == parts;
  }

  /** Extending the last piece extends the joined string. */
  lemma JoinExtendLast(parts: seq<string>, c: char, sep: char)
    requires |parts| >= 1
    ensures Join(parts[..|parts| - 1] + [parts[|parts| - 1] + [c]], sep) == Join(parts, sep) + [c]
  {
    var init, last := parts[..|parts| - 1], parts[|parts| - 1];
    if |parts| > 1 {
      JoinSnoc(init, last + [c], sep);
      JoinSnoc(init, last, sep);
      assert init + [last] == parts;
      AppendAssoc(Join(init, sep) + [sep], last, [c]);
    }
  }

  /** The joined string starts with the first piece. */
  lemma {:induction false} JoinStartsWith(parts: seq<string>, sep: char)
    requires |parts| >= 1
    ensures |parts[0]| <= |Join(parts, sep)| && Join(parts, sep)[..|parts[0]|] == parts[0]
  {
    if |parts| > 1 {
      var init := parts[..|parts| - 1];
      JoinStartsWith(init, sep);
      var j := Join(init, sep);
      assert (j + [sep] + parts[|parts| - 1])[..|parts[0]|] == j[..|parts[0]|];
    }
  }

  /** Joining peels off the first piece. */
  lemma {:induction false} JoinCons(parts: seq<string>, sep: char)
    requires |parts| >= 2
    ensures Join(parts, sep) == parts[0] + [sep] + Join(parts[1..], sep)
  {
    var n := |parts|;
    if n > 2 {
      var init := parts[..n - 1];
      JoinCons(init, sep);
      assert init[1..] == parts[1..][..n - 2];
      AppendAssoc(parts[0] + [sep], Join(init[1..], sep), [sep] + parts[n - 1]);
      AppendAssoc(parts[0] + [sep] + Join(init[1..], sep), [sep], parts[n - 1]);
      AppendAssoc(Join(init[1..], sep), [sep], parts[n - 1]);
    }
  }

  /** A character in none of the pieces, other than the separator, is not in the joined string. */
  lemma {:induction false} JoinAvoids(parts: seq<string>, sep: char, c: char)
    requires c != sep && forall k :: 0 <= k < |parts| ==> c !in parts[k]
    ensures c !in Join(parts, sep)
  {
    if |parts| > 1 {
      JoinAvoids(parts[..|parts| - 1], sep, c);
    }
  }

  /** Splitting and joining again gives back the original string. */
  lemma {:induction false} JoinSplit(s: string, sep: char)
    ensures Join(Split(s, sep), sep) == s
  {
    if s != [] {
      var p, c := s[..|s| - 1], s[|s| - 1];
      JoinSplit(p, sep);
      assert s == p + [c];
      var r := Split(p, sep);
      if c == sep {
        JoinSnoc(r, "", sep);
      } else {
        JoinExtendLast(r, c, sep);
      }
    }
  }

  lemma {:induction false} SplitNoSep(s: string, sep: char)
    requires sep !in s
    ensures Split(s, sep) == [s]
  {
    if s != [] {
      SplitNoSep(s[..|s| - 1], sep);
      assert s == s[..|s| - 1] + [s[|s| - 1]];
    }
  }

  /** A separator followed by a separator-free tail adds the tail as the last piece. */
  lemma {:induction false} SplitAfterSep(a: string, b: string, sep: char)
    requires sep !in b
    ensures Split(a + [sep] + b, sep) == Split(a, sep) + [b]
  {
    if b == [] {
      assert a + [sep] + b == a + [sep];
      assert (a + [sep])[..|a|] == a;
    } else {
      var b', c := b[..|b| - 1], b[|b| - 1];
      SplitAfterSep(a, b', sep);
      assert (a + [sep] + b)[..|a + [sep] + b| - 1] == a + [sep] + b';
      assert (Split(a, sep) + [b'])[..|Split(a, sep)|] == Split(a, sep);
      assert b' + [c] == b;
    }
  }

  /** Joining separator-free pieces and splitting again gives back the pieces. */
  lemma {:induction false} SplitJoin(parts: seq<string>, sep: char)
    requires |parts| >= 1
    requires forall k :: 0 <= k < |parts| ==> sep !in parts[k]
    ensures Split(Join(parts, sep), sep) == parts
  {
    if |parts| == 1 {
      SplitNoSep(parts[0], sep);
    } else {
      var init, last := parts[..|parts| - 1], parts[|parts| - 1];
      SplitJoin(init, sep);
      SplitAfterSep(Join(init, sep), last, sep);
      assert init + [last] == parts;
    }
  }

  /** `s.lastIndexOf(c)`: the last position holding `c`, or -1. */
  function LastIndexOf(s: string, c: char): (r: int)
    ensures -1 <= r < |s|
    ensures r >= 0 ==> s[r] == c && forall j :: r < j < |s| ==> s[j] != c
    ensures r == -1 ==> forall j :: 0 <= j < |s| ==> s[j] != c
  {
    if s == [] then -1
    else if s[|s| - 1] == c then |s| - 1
    else LastIndexOf(s[..|s| - 1], c)
  }

  /** The value of `s.replace(/"/g, '""')`: every `"` doubled. */
  function DoubleQuotes(s: string): (r: string)
    ensures |r| >= |s|
  {
    if s == [] then [] else DoubleQuotes(s[..|s| - 1]) + DoubledChar(s[|s| - 1])
  }

  function DoubledChar(c: char): string {
    if c == '"' then ['"', '"'] else [c]
  }

  /** `s` with every `"` removed. */
  function RemoveQuotes(s: string): (r: string)
    ensures '"' !in r
    ensures '"' !in s ==> r == s
  {
    if s == [] then []
    else
      assert s == s[..|s| - 1] + [s[|s| - 1]];
      RemoveQuotes(s[..|s| - 1]) + DroppedQuote(s[|s| - 1])
  }

  function DroppedQuote(c: char): string {
    if c == '"' then [] else [c]
  }

  /** Doubling quotes adds no character other than `"`. */
  lemma {:induction false} DoubleQuotesAvoids(s: string, c: char)
    requires c != '"' && c !in s
    ensures c !in DoubleQuotes(s)
  {
    if s != [] {
      DoubleQuotesAvoids(s[..|s| - 1], c);
      assert s[|s| - 1] in s;
    }
  }

  lemma {:induction false} DoubleQuotesAppend(a: string, b: string)
    ensures DoubleQuotes(a + b) == DoubleQuotes(a) + DoubleQuotes(b)
  {
    if b == [] {
      assert a + b == a;
    } else {
      var b', c := b[..|b| - 1], b[|b| - 1];
      DoubleQuotesAppend(a, b');
      assert (a + b)[..|a + b| - 1] == a + b';
      AppendAssoc(DoubleQuotes(a), DoubleQuotes(b'), DoubledChar(c));
    }
  }

  lemma {:induction false} RemoveQuotesAppend(a: string, b: string)
    ensures RemoveQuotes(a + b) == RemoveQuotes(a) + RemoveQuotes(b)
  {
    if b == [] {
      assert a + b == a;
    } else {
      var b', c := b[..|b| - 1], b[|b| - 1];
      RemoveQuotesAppend(a, b');
      assert (a + b)[..|a + b| - 1] == a + b' && (a + b)[|a + b| - 1] == c;
      assert RemoveQuotes(a + b) == RemoveQuotes(a + b') + DroppedQuote(c);
      assert RemoveQuotes(b) == RemoveQuotes(b') + DroppedQuote(c);
      AppendAssoc(RemoveQuotes(a), RemoveQuotes(b'), DroppedQuote(c));
    }
  }

  /** Doubling the quotes and then dropping every quote loses exactly the quotes. */
  lemma {:induction false} RemoveDoubledQuotes(s: string)
    ensures RemoveQuotes(DoubleQuotes(s)) == RemoveQuotes(s)
  {
    if s != [] {
      var s', c := s[..|s| - 1], s[|s| - 1];
      RemoveDoubledQuotes(s');
      RemoveQuotesAppend(DoubleQuotes(s'), DoubledChar(c));
      assert RemoveQuotes(DoubledChar(c)) == DroppedQuote(c) by {
        if c == '"' { assert ['"', '"'][..1] == ['"']; }
      }
    }
  }
}
