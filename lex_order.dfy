/**
 * The order in which LevelDB's default comparator and std::string's
 * operator< arrange keys: unsigned, element-by-element lexicographic
 * comparison, where a proper prefix comes first. Bytes are values in
 * 0..255, so one predicate over seq<int> serves both byte strings and
 * sequences of word indices.
 */
module LexOrder {

  /** Strict lexicographic order: a comes before b. */
  predicate LexLess(a: seq<int>, b: seq<int>)
  {
    if a == [] then b != []
    else b != [] && (a[0] < b[0] || (a[0] == b[0] && LexLess(a[1..], b[1..])))
  }

  lemma {:induction false} Irreflexive(a: seq<int>)
    ensures !LexLess(a, a)
  {
    if a != [] {
      Irreflexive(a[1..]);
    }
  }

  lemma {:induction false} Transitive(a: seq<int>, b: seq<int>, c: seq<int>)
    requires LexLess(a, b) && LexLess(b, c)
    ensures LexLess(a, c)
  {
    if a != [] && a[0] == b[0] && b[0] == c[0] {
      Transitive(a[1..], b[1..], c[1..]);
    }
  }

  lemma {:induction false} Asymmetric(a: seq<int>, b: seq<int>)
    requires LexLess(a, b)
    ensures !LexLess(b, a)
  {
    if a != [] && a[0] == b[0] {
      Asymmetric(a[1..], b[1..]);
    }
  }

  /** Any two distinct sequences are ordered one way or the other. */
  lemma {:induction false} Total(a: seq<int>, b: seq<int>)
    requires a != b
    ensures LexLess(a, b) || LexLess(b, a)
  {
    if a != [] && b != [] && a[0] == b[0] {
      assert a == [a[0]] + a[1..] && b == [b[0]] + b[1..];
      Total(a[1..], b[1..]);
    }
  }

  /**
   * Comparing two concatenations whose first parts have the same length:
   * the first parts decide, and only when they are equal do the second
   * parts. This is what makes fixed-width encodings compare component by
   * component.
   */
  lemma {:induction false} AppendEqualLength(x: seq<int>, u: seq<int>, y: seq<int>, w: seq<int>)
    requires |x| == |y|
    ensures LexLess(x + u, y + w) <==> LexLess(x, y) || (x == y && LexLess(u, w))
  {
    if x == [] {
      assert x + u == u && y + w == w;
    } else {
      assert (x + u)[0] == x[0] && (y + w)[0] == y[0];
      assert (x + u)[1..] == x[1..] + u && (y + w)[1..] == y[1..] + w;
      AppendEqualLength(x[1..], u, y[1..], w);
      if x[0] == y[0] && x[1..] == y[1..] {
        assert x == [x[0]] + x[1..] && y == [y[0]] + y[1..];
      }
    }
  }
}
