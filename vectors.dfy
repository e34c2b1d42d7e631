/** Face embeddings and the arithmetic `updateMeanEncoding` performs on them.
    Vectors are sequences of exact reals; numpy's floating point is not modelled. */
module Vectors {

  type Vec = seq<real>

  /** What the recogniser's `dist(target, this)` returns: the distance between two
      embeddings and whether the recogniser takes them for the same person. */
  datatype Verdict = Verdict(dist: real, recognised: bool)

  /** The update in `updateMeanEncoding`: the stored vector `v`, multiplied by
      `timesAdded` = n, plus the new embedding `x`, divided by n again (not by n + 1).
      The result is therefore v + x / n, which is not a running mean. */
  function Fold(v: Vec, n: int, x: Vec): (r: Vec)
    requires |v| == |x| && n >= 1
    ensures |r| == |v|
    ensures forall i :: 0 <= i < |r| ==> r[i] == v[i] + x[i] / (n as real)
  {
    seq(|v|, i requires 0 <= i < |v| => (v[i] * (n as real) + x[i]) / (n as real))
  }

  predicate AllOfLength(s: seq<Vec>, d: nat) {
    forall k :: 0 <= k < |s| ==> |s[k]| == d
  }

  /** The vector stored for one identity after the embeddings `s` reached it in
      order: the first one inserted with timesAdded = 1, each later one folded in
      with timesAdded equal to the number of embeddings before it. */
  function Stored(s: seq<Vec>, d: nat): (r: Vec)
    requires |s| >= 1 && AllOfLength(s, d)
    ensures |r| == d
    decreases |s|
  {
    if |s| == 1 then s[0] else Fold(Stored(s[..|s| - 1], d), |s| - 1, s[|s| - 1])
  }

  /** Folding one more embedding into the stored vector of `s` gives the stored
      vector of `s` extended by it. */
  lemma StoredSnoc(s: seq<Vec>, x: Vec, d: nat)
    requires |s| >= 1 && AllOfLength(s, d) && |x| == d
    ensures AllOfLength(s + [x], d)
    ensures Stored(s + [x], d) == Fold(Stored(s, d), |s|, x)
  {
    var s' := s + [x];
    assert s'[..|s|] == s;
    assert AllOfLength(s', d);
  }

  /** 1 + 1/2 + ... + 1/m. */
  function Harmonic(m: nat): real {
    if m == 0 then 0.0 else Harmonic(m - 1) + 1.0 / (m as real)
  }

  predicate AllEqual(s: seq<Vec>, e: Vec) {
    forall k :: 0 <= k < |s| ==> s[k] == e
  }

  /** Enrolling the same embedding e n times does not leave e (its mean) in the
      store: component i becomes e[i] * (1 + H(n - 1)), growing without bound. */
  lemma {:induction false} RepeatedSampleDrifts(s: seq<Vec>, e: Vec, i: nat)
    requires |s| >= 1 && AllEqual(s, e) && i < |e|
    ensures AllOfLength(s, |e|)
    ensures Stored(s, |e|)[i] == e[i] * (1.0 + Harmonic(|s| - 1))
    decreases |s|
  {
    if |s| > 1 {
      var p := s[..|s| - 1];
      assert AllEqual(p, e);
      RepeatedSampleDrifts(p, e, i);
      var n := (|s| - 1) as real;
      calc {
        Stored(s, |e|)[i];
        Stored(p, |e|)[i] + s[|s| - 1][i] / n;
        e[i] * (1.0 + Harmonic(|s| - 2)) + e[i] / n;
        e[i] * (1.0 + Harmonic(|s| - 2) + 1.0 / n);
        e[i] * (1.0 + Harmonic(|s| - 1));
      }
    }
  }

  /** A worked example: [1, 0, 0] enrolled, then [1, 0, 0.2] folded in. A mean
      would be [1, 0, 0.1]; the store holds their sum. */
  lemma TwoSampleExample()
    ensures Stored([[1.0, 0.0, 0.0], [1.0, 0.0, 0.2]], 3) == [2.0, 0.0, 0.2]
    ensures Stored([[1.0, 0.0, 0.0], [1.0, 0.0, 0.2]], 3) != [1.0, 0.0, 0.1]
  {
    var s := [[1.0, 0.0, 0.0], [1.0, 0.0, 0.2]];
    assert s[..1] == [[1.0, 0.0, 0.0]];
    var r := Stored(s, 3);
    assert r[2] == 0.2;
  }
}
