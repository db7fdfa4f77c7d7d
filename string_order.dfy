/** Python's ordering of `str` values (code point by code point, a proper prefix first) and
    `sorted()` of a set of names, as used for directory listings. */
module StringOrder {

  /** `a < b` on Python strings. */
  predicate Below(a: string, b: string) {
    if |a| == 0 then |b| > 0
    else if |b| == 0 then false
    else if a[0] != b[0] then a[0] < b[0]
    else Below(a[1..], b[1..])
  }

  lemma {:induction false} BelowIrreflexive(a: string)
    ensures !Below(a, a)
  {
    if |a| > 0 { BelowIrreflexive(a[1..]); }
  }

  lemma {:induction false} BelowTransitive(a: string, b: string, c: string)
    requires Below(a, b) && Below(b, c)
    ensures Below(a, c)
  {
    if |a| > 0 && |b| > 0 && |c| > 0 && a[0] == b[0] == c[0] {
      BelowTransitive(a[1..], b[1..], c[1..]);
    }
  }

  lemma {:induction false} BelowTotal(a: string, b: string)
    requires a != b
    ensures Below(a, b) != Below(b, a)
  {
    if |a| > 0 && |b| > 0 && a[0] == b[0] {
      assert a == [a[0]] + a[1..] && b == [b[0]] + b[1..];
      BelowTotal(a[1..], b[1..]);
    }
  }

  /** `m` is the least element of `s`. */
  predicate IsLeast(m: string, s: set<string>) {
    m in s && forall x :: x in s && x != m ==> Below(m, x)
  }

  lemma {:induction false} LeastExists(s: set<string>)
    requires s != {}
    ensures exists m :: IsLeast(m, s)
    decreases |s|
  {
    var y :| y in s;
    var rest := s - {y};
    if rest == {} {
      assert s == {y};
      assert IsLeast(y, s);
    } else {
      LeastExists(rest);
      var m :| IsLeast(m, rest);
      if Below(m, y) {
        forall x | x in s && x != m ensures Below(m, x) {
          if x == y { } else { assert x in rest; }
        }
        assert IsLeast(m, s);
      } else {
        BelowTotal(m, y);
        forall x | x in s && x != y ensures Below(y, x) {
          if x != m { assert x in rest; BelowTransitive(y, m, x); }
        }
        assert IsLeast(y, s);
      }
    }
  }

  lemma LeastUnique(s: set<string>)
    ensures forall m, m' :: IsLeast(m, s) && IsLeast(m', s) ==> m == m'
  {
    forall m, m' | IsLeast(m, s) && IsLeast(m', s) ensures m == m' {
      if m != m' { BelowTotal(m, m'); }
    }
  }

  predicate StrictlyAscending(r: seq<string>) {
    forall i, j :: 0 <= i < j < |r| ==> Below(r[i], r[j])
  }

  /** `sorted(s)` for a set of strings: its elements, each once, in ascending order. */
  function Sorted(s: set<string>): (r: seq<string>)
    ensures StrictlyAscending(r)
    ensures forall x :: x in r <==> x in s
    ensures |r| == |s|
    decreases |s|
  {
    if s == {} then []
    else
      LeastExists(s);
      LeastUnique(s);
      var m :| IsLeast(m, s);
      var rest := Sorted(s - {m});
      forall j | 0 <= j < |rest| ensures Below(m, rest[j]) {
        assert rest[j] in s - {m};
      }
      [m] + rest
  }

  /** Strictly ascending sequences never repeat an element. */
  lemma AscendingDistinct(r: seq<string>, i: int, j: int)
    requires StrictlyAscending(r)
    requires 0 <= i < |r| && 0 <= j < |r| && i != j
    ensures r[i] != r[j]
  {
    if i < j { if r[i] == r[j] { BelowIrreflexive(r[i]); } }
    else { if r[i] == r[j] { BelowIrreflexive(r[j]); } }
  }
}
