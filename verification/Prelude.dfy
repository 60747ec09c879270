/** The two result shapes the whole model uses in place of Rust's `Option` and `Result`. */
module Wrappers {
  datatype Option<+T> = None | Some(value: T)

  datatype Result<+R, +E> = Ok(value: R) | Err(error: E)

  function Lookup<K, V>(m: map<K, V>, k: K): Option<V> {
    if k in m then Some(m[k]) else None
  }
}

/** Floor-division facts that the window arithmetic rests on. */
module Division {
  lemma QuotientBounds(a: int, b: int)
    requires 0 < b
    ensures a / b * b <= a < a / b * b + b
  {
  }

  lemma QuotientIs(a: int, b: int, q: int)
    requires 0 < b && q * b <= a < q * b + b
    ensures a / b == q
  {
    var r := a - q * b;
    assert a == q * b + r;
    QuotientBounds(a, b);
    var d := a / b - q;
    assert a / b * b == q * b + d * b;
    if d >= 1 {
      MulMono(1, d, b);
    }
    if d <= -1 {
      MulMono(d, -1, b);
    }
  }

  lemma MulMono(a: int, b: int, c: int)
    requires a <= b && 0 <= c
    ensures a * c <= b * c
  {
  }

  lemma NextMultiple(a: int, b: int)
    ensures (a + 1) * b == a * b + b
  {
  }

  lemma DivMono(a: int, b: int, c: int)
    requires a <= b && 0 < c
    ensures a / c <= b / c
  {
    QuotientBounds(a, c);
    QuotientBounds(b, c);
    if a / c > b / c {
      MulMono(b / c + 1, a / c, c);
    }
  }

  /** Rounding up. */
  function CeilDiv(a: int, b: int): (q: int)
    requires 0 < b
    ensures (q - 1) * b < a <= q * b
  {
    QuotientBounds(-a, b);
    -(-a / b)
  }
}

/** Instants and durations are nanoseconds, the resolution of the clock; an instant counts from the Unix epoch. */
module Instants {
  const SECOND := 1_000_000_000

  const DAY := 86_400 * SECOND

  /** Whole seconds of a duration, truncated toward zero. */
  function WholeSeconds(d: int): int {
    if d >= 0 then d / SECOND else -(-d / SECOND)
  }
}

/** Octets. Text that crosses the wire is a `string` with one character per octet of its UTF-8 form. */
module Bytes {
  type Byte = b: int | 0 <= b < 256

  type Bytes32 = s: seq<Byte> | |s| == 32 witness seq(32, _ => 0)
}

/** Counting in finite sets. */
module FiniteSets {
  lemma RestIsSmaller<T>(a: set<T>, part: set<T>)
    requires part <= a
    ensures |a| == |a - part| + |part|
  {
    assert a == (a - part) + part;
  }

  lemma DisjointSizes<T>(a: set<T>, b: set<T>)
    requires a !! b
    ensures |a + b| == |a| + |b|
  {
  }

  lemma SubsetIsSmaller<T>(a: set<T>, b: set<T>)
    requires a <= b
    ensures |a| <= |b|
  {
    assert b == a + (b - a);
  }
}

module Sequences {
  /** Cutting at the first separator is unambiguous. */
  lemma CutAtFirst<T>(a: seq<T>, b: seq<T>, c: seq<T>, d: seq<T>, x: T)
    requires x !in a && x !in b && a + [x] + c == b + [x] + d
    ensures a == b && c == d
  {
    var s, t := a + [x] + c, b + [x] + d;
    assert forall i :: 0 <= i < |a| ==> s[i] != x by { assert forall i :: 0 <= i < |a| ==> s[i] == a[i] && a[i] in a; }
    assert forall i :: 0 <= i < |b| ==> t[i] != x by { assert forall i :: 0 <= i < |b| ==> t[i] == b[i] && b[i] in b; }
    assert s[|a|] == x && t[|b|] == x;
    assert a == s[..|a|] && b == t[..|b|];
    assert c == s[|a| + 1..] && d == t[|b| + 1..];
  }

  lemma Regroup<T>(a: seq<T>, b: seq<T>, c: seq<T>, d: seq<T>)
    ensures a + b + c + d == a + (b + (c + d))
  {
    assert a + b + c + d == a + b + (c + d);
    assert a + b + (c + d) == a + (b + (c + d));
  }
}
