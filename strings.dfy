/**
 * String operations the core relies on from Rust's standard library:
 * `str::split_once('/')` and the ordering of `String` keys in a `BTreeMap`;
 * and, to state properties of paths, the chain of segments that repeated
 * `split_once('/')` walks. A UTF-8 byte-wise comparison (what `String` uses)
 * orders strings exactly as a code-point-wise comparison does, so the order
 * here compares `char`s.
 */
module Strings {
  import opened Wrappers

  /** `s.split_once('/')`: the text before the first '/' and the text after it. */
  function SplitOnce(s: string): (r: Option<(string, string)>)
    ensures r.Some? ==> |r.value.1| < |s|
  {
    if s == [] then None
    else if s[0] == '/' then Some(([], s[1..]))
    else
      match SplitOnce(s[1..])
      case None => None
      case Some((car, cdr)) => Some(([s[0]] + car, cdr))
  }

  /** SplitOnce fails exactly when there is no '/', and otherwise cuts at the first one. */
  lemma {:induction false} SplitOnceSpec(s: string)
    ensures SplitOnce(s).None? <==> '/' !in s
    ensures SplitOnce(s).Some? ==>
              '/' !in SplitOnce(s).value.0 && s == SplitOnce(s).value.0 + "/" + SplitOnce(s).value.1
  {
    if s != [] && s[0] != '/' {
      SplitOnceSpec(s[1..]);
      if SplitOnce(s[1..]).Some? {
        var (car, cdr) := SplitOnce(s[1..]).value;
        assert s == [s[0]] + s[1..];
      }
    }
  }

  /** Characterizes SplitOnce: splitting a '/'-free head off "head/tail" gives back head and tail. */
  lemma {:induction false} SplitOnceJoin(car: string, cdr: string)
    requires '/' !in car
    ensures SplitOnce(car + "/" + cdr) == Some((car, cdr))
  {
    if car != [] {
      assert (car + "/" + cdr)[1..] == car[1..] + "/" + cdr;
      SplitOnceJoin(car[1..], cdr);
      assert [car[0]] + car[1..] == car;
    } else {
      assert car + "/" + cdr == ['/'] + cdr;
    }
  }

  /**
   * The segment chain of a path: the heads that repeated `split_once('/')`
   * cuts off, then the final rest (there is always at least one segment).
   */
  function Segments(s: string): (r: seq<string>)
    ensures |r| >= 1
    ensures forall i :: 0 <= i < |r| ==> '/' !in r[i]
    ensures Join(r) == s
    decreases |s|
  {
    SplitOnceSpec(s);
    match SplitOnce(s)
    case None => [s]
    case Some((car, cdr)) => [car] + Segments(cdr)
  }

  /** The inverse of Segments: the segments glued back together with '/'. */
  function Join(segs: seq<string>): string
    requires |segs| >= 1
  {
    if |segs| == 1 then segs[0] else segs[0] + "/" + Join(segs[1..])
  }

  /** Segments and Join are inverse on segment lists without '/'. */
  lemma {:induction false} SegmentsOfJoin(segs: seq<string>)
    requires |segs| >= 1
    requires forall i :: 0 <= i < |segs| ==> '/' !in segs[i]
    ensures Segments(Join(segs)) == segs
  {
    if |segs| > 1 {
      SplitOnceJoin(segs[0], Join(segs[1..]));
      SegmentsOfJoin(segs[1..]);
    }
  }

  /**
   * Strict lexicographic order on strings: `a < b` for Rust's `String`,
   * computed one character at a time. It agrees with the textbook definition
   * `Lexicographic`.
   */
  function Below(a: string, b: string): (r: bool)
    ensures r <==> Lexicographic(a, b)
  {
    if |a| > 0 && |b| > 0 then
      LexicographicStep(a, b);
      a[0] < b[0] || (a[0] == b[0] && Below(a[1..], b[1..]))
    else
      |b| > 0
  }

  /**
   * `a` comes strictly before `b`: it is a proper prefix of `b`, or at the
   * first position where they differ `a` has the smaller character.
   */
  ghost predicate Lexicographic(a: string, b: string)
  {
    (|a| < |b| && a == b[..|a|]) ||
    exists i :: 0 <= i < |a| && i < |b| && a[..i] == b[..i] && a[i] < b[i]
  }

  /** Comparing the first characters, then the rest, decides `Lexicographic`. */
  lemma LexicographicStep(a: string, b: string)
    requires |a| > 0 && |b| > 0
    ensures Lexicographic(a, b) <==>
              a[0] < b[0] || (a[0] == b[0] && Lexicographic(a[1..], b[1..]))
  {
    if Lexicographic(a, b) && !(a[0] < b[0]) {
      LexicographicTail(a, b);
    }
    if a[0] < b[0] {
      assert a[..0] == b[..0];
    } else if a[0] == b[0] && Lexicographic(a[1..], b[1..]) {
      LexicographicCons(a, b);
    }
  }

  /** With equal first characters, an order on the strings is an order on their tails. */
  lemma LexicographicTail(a: string, b: string)
    requires |a| > 0 && |b| > 0 && Lexicographic(a, b) && !(a[0] < b[0])
    ensures a[0] == b[0] && Lexicographic(a[1..], b[1..])
  {
    if |a| < |b| && a == b[..|a|] {
      assert a[0] == b[..|a|][0];
      assert a[1..] == b[1..][..|a| - 1];
    } else {
      var i :| 0 <= i < |a| && i < |b| && a[..i] == b[..i] && a[i] < b[i];
      assert i > 0 && a[0] == a[..i][0] && b[0] == b[..i][0];
      assert a[1..][..i - 1] == a[..i][1..] && b[1..][..i - 1] == b[..i][1..];
      assert a[1..][i - 1] == a[i] && b[1..][i - 1] == b[i];
    }
  }

  /** An order on the tails, behind equal first characters, is an order on the strings. */
  lemma LexicographicCons(a: string, b: string)
    requires |a| > 0 && |b| > 0 && a[0] == b[0] && Lexicographic(a[1..], b[1..])
    ensures Lexicographic(a, b)
  {
    if |a| - 1 < |b| - 1 && a[1..] == b[1..][..|a| - 1] {
      assert a == [a[0]] + a[1..] && b[..|a|] == [b[0]] + b[1..][..|a| - 1];
    } else {
      var j :| 0 <= j < |a| - 1 && j < |b| - 1 && a[1..][..j] == b[1..][..j] && a[1..][j] < b[1..][j];
      assert a[..j + 1] == [a[0]] + a[1..][..j] && b[..j + 1] == [b[0]] + b[1..][..j];
      assert a[j + 1] == a[1..][j] && b[j + 1] == b[1..][j];
    }
  }

  lemma {:induction false} BelowIrreflexive(a: string)
    ensures !Below(a, a)
  {
    if |a| > 0 {
      BelowIrreflexive(a[1..]);
    }
  }

  lemma {:induction false} BelowTransitive(a: string, b: string, c: string)
    requires Below(a, b) && Below(b, c)
    ensures Below(a, c)
  {
    if |a| > 0 && a[0] == b[0] && b[0] == c[0] {
      BelowTransitive(a[1..], b[1..], c[1..]);
    }
  }

  lemma {:induction false} BelowTotal(a: string, b: string)
    ensures a == b || Below(a, b) || Below(b, a)
  {
    if |a| > 0 && |b| > 0 && a[0] == b[0] {
      BelowTotal(a[1..], b[1..]);
      if a[1..] == b[1..] {
        assert a == [a[0]] + a[1..] && b == [b[0]] + b[1..];
      }
    }
  }

  lemma BelowAsymmetric(a: string, b: string)
    requires Below(a, b)
    ensures !Below(b, a)
  {
    if Below(b, a) {
      BelowTransitive(a, b, a);
      BelowIrreflexive(a);
    }
  }

  /** Every pair of positions of `keys` is in strictly ascending order. */
  ghost predicate Ascending(keys: seq<string>)
  {
    forall i, j :: 0 <= i < j < |keys| ==> Below(keys[i], keys[j])
  }

  predicate IsLeast(m: string, s: set<string>)
  {
    m in s && forall y :: y in s ==> y == m || Below(m, y)
  }

  lemma {:induction false} LeastExists(s: set<string>)
    requires s != {}
    ensures exists m :: IsLeast(m, s)
    decreases |s|
  {
    var x :| x in s;
    if s != {x} {
      LeastExists(s - {x});
      var m :| IsLeast(m, s - {x});
      BelowTotal(x, m);
      if Below(x, m) {
        forall y | y in s ensures y == x || Below(x, y) {
          if y != x && y != m {
            BelowTransitive(x, m, y);
          }
        }
        assert IsLeast(x, s);
      } else {
        assert IsLeast(m, s);
      }
    } else {
      assert IsLeast(x, s);
    }
  }

  lemma LeastUnique(s: set<string>)
    ensures forall m, n :: IsLeast(m, s) && IsLeast(n, s) ==> m == n
  {
    forall m, n | IsLeast(m, s) && IsLeast(n, s) ensures m == n {
      if m != n {
        BelowAsymmetric(m, n);
      }
    }
  }

  /** The smallest string of a non-empty set. */
  function Least(s: set<string>): (m: string)
    requires s != {}
    ensures IsLeast(m, s)
  {
    LeastExists(s);
    LeastUnique(s);
    var m :| IsLeast(m, s); m
  }

  /** The keys of a set in ascending order: the iteration order of a `BTreeMap`. */
  function SortedKeys(s: set<string>): (keys: seq<string>)
    ensures Ascending(keys)
    ensures forall k :: k in keys <==> k in s
    ensures |keys| == |s|
    decreases |s|
  {
    if s == {} then []
    else
      var m := Least(s);
      var rest := SortedKeys(s - {m});
      assert forall j :: 0 <= j < |rest| ==> Below(m, rest[j]) by {
        forall j | 0 <= j < |rest| ensures Below(m, rest[j]) {
          assert rest[j] in s - {m};
        }
      }
      [m] + rest
  }

  lemma HeadIn(s: seq<string>)
    requires s != []
    ensures s[0] in s
  {
  }

  /** An ascending enumeration of a set is unique: SortedKeys is THE ascending order. */
  lemma {:induction false} AscendingUnique(a: seq<string>, b: seq<string>)
    requires Ascending(a) && Ascending(b)
    requires forall k :: k in a <==> k in b
    ensures a == b
  {
    if a != [] && b != [] {
      if a[0] != b[0] {
        assert a[0] in b && b[0] in a;
        var i :| 0 <= i < |b| && b[i] == a[0];
        var j :| 0 <= j < |a| && a[j] == b[0];
        assert Below(b[0], a[0]) by { assert i > 0; }
        assert Below(a[0], b[0]) by { assert j > 0; }
        BelowAsymmetric(a[0], b[0]);
      }
      forall k ensures k in a[1..] <==> k in b[1..] {
        if k in a[1..] {
          var i :| 1 <= i < |a| && a[i] == k;
          assert Below(a[0], k);
          BelowIrreflexive(k);
          assert k in b;
        }
        if k in b[1..] {
          var i :| 1 <= i < |b| && b[i] == k;
          assert Below(b[0], k);
          BelowIrreflexive(k);
          assert k in a;
        }
      }
      AscendingUnique(a[1..], b[1..]);
    } else if a != [] {
      HeadIn(a);
      assert false;
    } else if b != [] {
      HeadIn(b);
      assert false;
    }
  }
}
