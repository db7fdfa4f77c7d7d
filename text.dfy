/** The few operations on Python's `str` that the page-range parser relies on:
    `strip()`, `lower()` and `split(sep)`, on the ASCII characters. */
module Text {

  /** Python's `str.isspace()` on the ASCII range: the characters `strip()` removes. */
  predicate IsSpace(c: char) {
    c == ' ' || c == '\t' || c == '\n' || c == '\r' || c == '\U{0B}' || c == '\U{0C}'
    || ('\U{1C}' <= c <= '\U{1F}')
  }

  /** `s.lstrip()`: drops the leading whitespace. */
  function TrimStart(s: string): string {
    if |s| > 0 && IsSpace(s[0]) then TrimStart(s[1..]) else s
  }

  /** `s.rstrip()`: drops the trailing whitespace. */
  function TrimEnd(s: string): string {
    if |s| > 0 && IsSpace(s[|s| - 1]) then TrimEnd(s[..|s| - 1]) else s
  }

  /** `s.strip()`. */
  function Strip(s: string): string {
    TrimEnd(TrimStart(s))
  }

  lemma {:induction false} TrimStartSpec(s: string)
    ensures var r := TrimStart(s);
      |r| <= |s| && r == s[|s| - |r|..]
      && (forall i :: 0 <= i < |s| - |r| ==> IsSpace(s[i]))
      && (r == [] || !IsSpace(r[0]))
  {
    if |s| > 0 && IsSpace(s[0]) { TrimStartSpec(s[1..]); }
  }

  lemma {:induction false} TrimEndSpec(s: string)
    ensures var r := TrimEnd(s);
      |r| <= |s| && r == s[..|r|]
      && (forall i :: |r| <= i < |s| ==> IsSpace(s[i]))
      && (r == [] || !IsSpace(r[|r| - 1]))
  {
    if |s| > 0 && IsSpace(s[|s| - 1]) { TrimEndSpec(s[..|s| - 1]); }
  }

  /** What `strip()` keeps: an infix of `s` that neither starts nor ends with whitespace,
      everything cut away around it being whitespace. */
  lemma StripSpec(s: string)
    ensures var r := Strip(s);
      exists a {:trigger s[a..]} :: 0 <= a <= |s| - |r| && r == s[a..][..|r|]
        && (forall i :: 0 <= i < a ==> IsSpace(s[i]))
        && (forall i :: a + |r| <= i < |s| ==> IsSpace(s[i]))
    ensures var r := Strip(s); r == [] || (!IsSpace(r[0]) && !IsSpace(r[|r| - 1]))
  {
    var t := TrimStart(s);
    TrimStartSpec(s);
    TrimEndSpec(t);
    var r := TrimEnd(t);
    var a := |s| - |t|;
    assert r == s[a..][..|r|];
    forall i | a + |r| <= i < |s| ensures IsSpace(s[i]) {
      assert s[i] == t[i - a];
    }
  }

  /** A leading whitespace character is dropped by `lstrip()`. */
  lemma TrimStartSpace(s: string, c: char)
    requires IsSpace(c)
    ensures TrimStart([c] + s) == TrimStart(s)
  {
    assert ([c] + s)[1..] == s;
  }

  /** `lstrip()` of a concatenation: the second part survives whole unless the first is blank. */
  lemma {:induction false} TrimStartAppend(s: string, t: string)
    ensures TrimStart(s + t) == if TrimStart(s) == [] then TrimStart(t) else TrimStart(s) + t
  {
    if |s| > 0 {
      assert (s + t)[1..] == s[1..] + t;
      if IsSpace(s[0]) { TrimStartAppend(s[1..], t); }
    } else {
      assert s + t == t;
    }
  }

  /** `rstrip()` drops one more trailing space, whatever the string. */
  lemma {:induction false} TrimEndSpace(s: string)
    ensures TrimEnd(s + " ") == TrimEnd(s)
  {
    assert (s + " ")[..|s|] == s;
  }

  /** Nothing but whitespace, the empty string included. */
  predicate Blank(w: string) {
    forall i :: 0 <= i < |w| ==> IsSpace(w[i])
  }

  /** `lstrip()` sees through any leading whitespace. */
  lemma {:induction false} TrimStartBlank(w: string, s: string)
    requires Blank(w)
    ensures TrimStart(w + s) == TrimStart(s)
  {
    if |w| > 0 {
      assert (w + s)[1..] == w[1..] + s;
      TrimStartBlank(w[1..], s);
    } else {
      assert w + s == s;
    }
  }

  /** `rstrip()` sees through any trailing whitespace. */
  lemma {:induction false} TrimEndBlank(s: string, w: string)
    requires Blank(w)
    ensures TrimEnd(s + w) == TrimEnd(s)
  {
    if |w| > 0 {
      var w' := w[..|w| - 1];
      assert (s + w)[..|s + w| - 1] == s + w';
      TrimEndBlank(s, w');
    } else {
      assert s + w == s;
    }
  }

  /** `strip()` ignores whitespace added on either side, however much. */
  lemma StripPadded(w1: string, s: string, w2: string)
    requires Blank(w1) && Blank(w2)
    ensures Strip(w1 + s + w2) == Strip(s)
  {
    assert w1 + s + w2 == w1 + (s + w2);
    TrimStartBlank(w1, s + w2);
    TrimStartAppend(s, w2);
    if TrimStart(s) == [] {
      assert w2 + [] == w2;
      TrimStartBlank(w2, []);
    } else {
      TrimEndBlank(TrimStart(s), w2);
    }
  }

  /** `lstrip()` stops at the first visible character, wherever it lies. */
  lemma TrimStartVisible(s: string, t: string)
    requires |t| > 0 && !IsSpace(t[0])
    ensures TrimStart(s + t) == TrimStart(s) + t
  {
    TrimStartAppend(s, t);
  }

  /** `rstrip()` stops at the last visible character, wherever it lies. */
  lemma {:induction false} TrimEndVisible(t: string, s: string)
    requires |t| > 0 && !IsSpace(t[|t| - 1])
    ensures TrimEnd(t + s) == t + TrimEnd(s)
  {
    if |s| > 0 {
      var s' := s[..|s| - 1];
      assert (t + s)[..|t + s| - 1] == t + s';
      if IsSpace(s[|s| - 1]) {
        TrimEndVisible(t, s');
      }
    } else {
      assert t + s == t;
    }
  }

  /** `strip()` around a visible character cuts only from the two ends. */
  lemma StripAround(lo: string, c: char, hi: string)
    requires !IsSpace(c)
    ensures Strip(lo + [c] + hi) == TrimStart(lo) + [c] + TrimEnd(hi)
  {
    assert lo + [c] + hi == lo + ([c] + hi);
    TrimStartVisible(lo, [c] + hi);
    assert TrimStart(lo) + ([c] + hi) == (TrimStart(lo) + [c]) + hi;
    TrimEndVisible(TrimStart(lo) + [c], hi);
  }

  /** `lstrip()` keeps a suffix, so it adds no character. */
  lemma TrimStartKeeps(s: string, c: char)
    requires c !in s
    ensures c !in TrimStart(s) && Strip(TrimStart(s)) == Strip(s)
  {
    TrimStartSpec(s);
    var t := TrimStart(s);
    var w := s[..|s| - |t|];
    assert s == w + t + [];
    StripPadded(w, t, []);
  }

  /** `rstrip()` keeps a prefix, so it adds no character. */
  lemma TrimEndKeeps(s: string, c: char)
    requires c !in s
    ensures c !in TrimEnd(s) && Strip(TrimEnd(s)) == Strip(s)
  {
    TrimEndSpec(s);
    var t := TrimEnd(s);
    var w := s[|t|..];
    assert s == [] + t + w;
    StripPadded([], t, w);
  }

  /** A string that already neither starts nor ends with whitespace is its own `strip()`. */
  lemma StripUnchanged(s: string)
    requires s == [] || (!IsSpace(s[0]) && !IsSpace(s[|s| - 1]))
    ensures Strip(s) == s
  {
  }

  /** `s.endswith(suffix)`; also what the `*` of a glob pattern `*suffix` leaves to match. */
  predicate EndsWith(s: string, suffix: string) {
    |suffix| <= |s| && s[|s| - |suffix|..] == suffix
  }

  /** Python's `str.lower()` on one character, for the ASCII letters. */
  function LowerChar(c: char): char {
    if 'A' <= c <= 'Z' then (c as int + 32) as char else c
  }

  /** `s.lower()` for ASCII text. */
  function Lower(s: string): string {
    seq(|s|, i requires 0 <= i < |s| => LowerChar(s[i]))
  }

  /** `s.lower() == "all"` holds exactly for the eight spellings of `all` in mixed case:
      no other character, whitespace included, is allowed. */
  lemma LowerIsAll(s: string)
    ensures Lower(s) == "all" <==>
      |s| == 3 && (s[0] == 'a' || s[0] == 'A') && (s[1] == 'l' || s[1] == 'L') && (s[2] == 'l' || s[2] == 'L')
  {
    if Lower(s) == "all" {
      assert |s| == 3;
      assert Lower(s)[0] == LowerChar(s[0]) && Lower(s)[1] == LowerChar(s[1]) && Lower(s)[2] == LowerChar(s[2]);
      assert LowerChar(s[0]) == 'a' && LowerChar(s[1]) == 'l' && LowerChar(s[2]) == 'l';
    }
    if |s| == 3 && (s[0] == 'a' || s[0] == 'A') && (s[1] == 'l' || s[1] == 'L') && (s[2] == 'l' || s[2] == 'L') {
      assert Lower(s) == "all";
    }
  }

  /** The inverse of `split`: `sep.join(parts)`. */
  function Join(parts: seq<string>, sep: char): string
    requires |parts| >= 1
  {
    if |parts| == 1 then parts[0] else parts[0] + [sep] + Join(parts[1..], sep)
  }

  /** Python's `s.split(sep)` for a one-character separator: the maximal pieces between
      separators, one more piece than there are separators, the empty string giving `[""]`. */
  function Split(s: string, sep: char): (r: seq<string>)
    ensures |r| >= 1
  {
    if |s| == 0 then [""]
    else
      var rest := Split(s[1..], sep);
      if s[0] == sep then [""] + rest
      else [[s[0]] + rest[0]] + rest[1..]
  }

  /** The pieces hold no separator, and joining them with it gives the string back. */
  lemma {:induction false} SplitSpec(s: string, sep: char)
    ensures forall i :: 0 <= i < |Split(s, sep)| ==> sep !in Split(s, sep)[i]
    ensures Join(Split(s, sep), sep) == s
  {
    if |s| > 0 {
      var rest := Split(s[1..], sep);
      SplitSpec(s[1..], sep);
      var r := Split(s, sep);
      if s[0] == sep {
        assert r == [""] + rest && r[1..] == rest;
        assert Join(r, sep) == "" + [sep] + Join(rest, sep);
        assert s == [s[0]] + s[1..];
      } else {
        assert r == [[s[0]] + rest[0]] + rest[1..];
        assert r[1..] == rest[1..];
        forall i | 0 <= i < |r| ensures sep !in r[i] {
          if i > 0 { assert r[i] == rest[i]; }
        }
        if |rest| == 1 {
          assert Join(r, sep) == [s[0]] + rest[0];
        } else {
          assert Join(r, sep) == [s[0]] + rest[0] + [sep] + Join(rest[1..], sep);
          assert Join(rest, sep) == rest[0] + [sep] + Join(rest[1..], sep);
        }
        assert s == [s[0]] + s[1..];
      }
    }
  }

  /** A string without the separator splits into itself alone. */
  lemma SplitWithoutSeparator(s: string, sep: char)
    requires sep !in s
    ensures Split(s, sep) == [s]
  {
    if |s| > 0 {
      SplitWithoutSeparator(s[1..], sep);
      assert [s[0]] + s[1..] == s;
    }
  }

  lemma {:induction false} JoinAppend(p: seq<string>, q: seq<string>, sep: char)
    requires |p| >= 1 && |q| >= 1
    ensures Join(p + q, sep) == Join(p, sep) + [sep] + Join(q, sep)
  {
    if |p| == 1 {
      assert (p + q)[1..] == q;
    } else {
      assert (p + q)[1..] == p[1..] + q;
      JoinAppend(p[1..], q, sep);
    }
  }

  /** A join starts with its first piece. */
  lemma JoinStart(parts: seq<string>, sep: char)
    requires |parts| >= 1
    ensures |parts[0]| <= |Join(parts, sep)| && Join(parts, sep)[..|parts[0]|] == parts[0]
  {
  }

  /** Splitting a join of separator-free pieces gives the pieces back: `split` and `join`
      are inverse. */
  lemma {:induction false} SplitJoin(parts: seq<string>, sep: char)
    requires |parts| >= 1
    requires forall i :: 0 <= i < |parts| ==> sep !in parts[i]
    ensures Split(Join(parts, sep), sep) == parts
  {
    if |parts| == 1 {
      SplitWithoutSeparator(parts[0], sep);
    } else {
      SplitJoin(parts[1..], sep);
      SplitPrefix(parts[0], Join(parts[1..], sep), sep);
      assert [parts[0]] + parts[1..] == parts;
    }
  }

  /** A separator-free head splits off as its own piece. */
  lemma {:induction false} SplitPrefix(head: string, tail: string, sep: char)
    requires sep !in head
    ensures Split(head + [sep] + tail, sep) == [head] + Split(tail, sep)
  {
    if |head| == 0 {
      assert head + [sep] + tail == [sep] + tail;
      assert ([sep] + tail)[1..] == tail;
    } else {
      var s := head + [sep] + tail;
      assert s[1..] == head[1..] + [sep] + tail;
      SplitPrefix(head[1..], tail, sep);
      assert [head[0]] + head[1..] == head;
    }
  }

  /** Two separator-free pieces around one separator split back into those two pieces. */
  lemma SplitPair(x: string, y: string, sep: char)
    requires sep !in x && sep !in y
    ensures Split(x + [sep] + y, sep) == [x, y]
  {
    SplitPrefix(x, y, sep);
    SplitWithoutSeparator(y, sep);
  }

  /** Split distributes over a separator: the pieces of `a,b` are those of `a` then those of `b`. */
  lemma SplitConcat(a: string, b: string, sep: char)
    ensures Split(a + [sep] + b, sep) == Split(a, sep) + Split(b, sep)
  {
    var p, q := Split(a, sep), Split(b, sep);
    SplitSpec(a, sep);
    SplitSpec(b, sep);
    JoinAppend(p, q, sep);
    SeparatorFreeConcat(p, q, sep);
    SplitJoin(p + q, sep);
  }

  lemma SeparatorFreeConcat(p: seq<string>, q: seq<string>, sep: char)
    requires forall i :: 0 <= i < |p| ==> sep !in p[i]
    requires forall i :: 0 <= i < |q| ==> sep !in q[i]
    ensures forall i :: 0 <= i < |p + q| ==> sep !in (p + q)[i]
  {
    forall i | 0 <= i < |p + q| ensures sep !in (p + q)[i] {
      if i < |p| { assert (p + q)[i] == p[i]; } else { assert (p + q)[i] == q[i - |p|]; }
    }
  }
}
