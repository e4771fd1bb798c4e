/** String operations the source relies on: Python slicing, SQL `LIKE '%q%'`
    read as substring containment, and SQLite's BINARY collation order. */
module Text {

  /** Python's `s[:n]`: the whole string when it is shorter than `n`. */
  function Prefix(s: string, n: nat): (r: string)
    ensures |r| == if |s| < n then |s| else n
    ensures r <= s
  {
    if |s| <= n then s else s[..n]
  }

  /** `q` occurs in `s` starting at position `i`. */
  ghost predicate OccursAt(q: string, s: string, i: int) {
    0 <= i && i + |q| <= |s| && s[i..i + |q|] == q
  }

  /** Reference meaning of substring containment. */
  ghost predicate Occurs(q: string, s: string) {
    exists i :: OccursAt(q, s, i)
  }

  /** Executable containment test: `q` is a prefix of `s` or of a suffix of `s`. */
  function Contains(s: string, q: string): bool
    decreases |s|
  {
    if |s| < |q| then false
    else if q <= s then true
    else Contains(s[1..], q)
  }

  lemma {:induction false} ContainsMeansOccurs(s: string, q: string)
    ensures Contains(s, q) <==> Occurs(q, s)
    decreases |s|
  {
    if |s| < |q| {
      NoOccurrenceInShorter(s, q);
    } else if q <= s {
      assert s[0..0 + |q|] == q;
      assert OccursAt(q, s, 0);
    } else {
      ContainsMeansOccurs(s[1..], q);
      OccursInTail(s, q);
    }
  }

  lemma NoOccurrenceInShorter(s: string, q: string)
    requires |s| < |q|
    ensures !Occurs(q, s)
  {
  }

  /** When `q` is not a prefix of `s`, its occurrences are those in `s[1..]`. */
  lemma OccursInTail(s: string, q: string)
    requires |q| <= |s| && !(q <= s)
    ensures Occurs(q, s) <==> Occurs(q, s[1..])
  {
    var t := s[1..];
    if Occurs(q, t) {
      var i :| OccursAt(q, t, i);
      assert t[i..i + |q|] == s[i + 1..i + 1 + |q|];
      assert OccursAt(q, s, i + 1);
    }
    if Occurs(q, s) {
      var i :| OccursAt(q, s, i);
      assert s[..|q|] == s[0..0 + |q|];
      assert i != 0;
      assert t[i - 1..i - 1 + |q|] == s[i..i + |q|];
      assert OccursAt(q, t, i - 1);
    }
  }

  /** Lexicographic order on code points, which is the order SQLite's BINARY
      collation gives UTF-8 text. */
  predicate LexLe(a: string, b: string)
    decreases |a|
  {
    |a| == 0 || (|b| > 0 && (a[0] < b[0] || (a[0] == b[0] && LexLe(a[1..], b[1..]))))
  }

  lemma {:induction false} LexLeTotal(a: string, b: string)
    ensures LexLe(a, b) || LexLe(b, a)
    decreases |a|
  {
    if |a| > 0 && |b| > 0 && a[0] == b[0] {
      LexLeTotal(a[1..], b[1..]);
    }
  }

  lemma {:induction false} LexLeTransitive(a: string, b: string, c: string)
    requires LexLe(a, b) && LexLe(b, c)
    ensures LexLe(a, c)
    decreases |a|
  {
    if |a| > 0 && a[0] == b[0] && b[0] == c[0] {
      LexLeTransitive(a[1..], b[1..], c[1..]);
    }
  }

  lemma {:induction false} LexLeAntisymmetric(a: string, b: string)
    requires LexLe(a, b) && LexLe(b, a)
    ensures a == b
    decreases |a|
  {
    if |a| > 0 {
      LexLeAntisymmetric(a[1..], b[1..]);
      assert a == [a[0]] + a[1..];
      assert b == [b[0]] + b[1..];
    }
  }
}
