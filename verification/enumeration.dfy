/** Finite enumerations used by the reference search: concatenation of a
    list of lists, and every word of a given length over an alphabet. */
module Enumeration {

  function Flatten<T>(xss: seq<seq<T>>): seq<T>
    decreases |xss|
  {
    if xss == [] then [] else xss[0] + Flatten(xss[1..])
  }

  /** An element is in the concatenation exactly when it is in one of the parts. */
  lemma {:induction false} FlattenContains<T>(xss: seq<seq<T>>, x: T)
    ensures x in Flatten(xss) <==> exists i :: 0 <= i < |xss| && x in xss[i]
    decreases |xss|
  {
    if xss != [] {
      FlattenContains(xss[1..], x);
      if x in Flatten(xss) && x !in xss[0] {
        var i :| 0 <= i < |xss[1..]| && x in xss[1..][i];
        assert x in xss[i + 1];
      }
      if i :| 0 <= i < |xss| && x in xss[i] {
        if i > 0 {
          assert x in xss[1..][i - 1];
        }
      }
    }
  }

  /** The words `[a] + w` for each `w` in `shorter`. */
  function Row<T>(a: T, shorter: seq<seq<T>>): seq<seq<T>> {
    seq(|shorter|, j requires 0 <= j < |shorter| => [a] + shorter[j])
  }

  /** One row per letter of the alphabet. */
  function Rows<T>(alphabet: seq<T>, shorter: seq<seq<T>>): seq<seq<seq<T>>> {
    seq(|alphabet|, i requires 0 <= i < |alphabet| => Row(alphabet[i], shorter))
  }

  /** All words of length `k` over `alphabet`. */
  function Words<T>(k: nat, alphabet: seq<T>): seq<seq<T>>
    decreases k
  {
    if k == 0 then [[]] else Flatten(Rows(alphabet, Words(k - 1, alphabet)))
  }

  predicate Over<T(==)>(w: seq<T>, alphabet: seq<T>) {
    forall i :: 0 <= i < |w| ==> w[i] in alphabet
  }

  /** `Words` lists exactly the words of length `k` over the alphabet. */
  lemma WordsExact<T>(k: nat, alphabet: seq<T>, w: seq<T>)
    ensures w in Words(k, alphabet) <==> |w| == k && Over(w, alphabet)
  {
    if w in Words(k, alphabet) {
      WordsSound(k, alphabet, w);
    }
    if |w| == k && Over(w, alphabet) {
      WordsComplete(k, alphabet, w);
    }
  }

  lemma {:induction false} WordsSound<T>(k: nat, alphabet: seq<T>, w: seq<T>)
    requires w in Words(k, alphabet)
    ensures |w| == k && Over(w, alphabet)
    decreases k
  {
    if k > 0 {
      var shorter := Words(k - 1, alphabet);
      var rows := Rows(alphabet, shorter);
      FlattenContains(rows, w);
      var a :| 0 <= a < |rows| && w in rows[a];
      var j :| 0 <= j < |shorter| && rows[a][j] == w;
      WordsSound(k - 1, alphabet, shorter[j]);
      assert w == [alphabet[a]] + shorter[j];
      assert forall i :: 1 <= i < |w| ==> w[i] == shorter[j][i - 1];
    }
  }

  lemma {:induction false} WordsComplete<T>(k: nat, alphabet: seq<T>, w: seq<T>)
    requires |w| == k && Over(w, alphabet)
    ensures w in Words(k, alphabet)
    decreases k
  {
    if k > 0 {
      var shorter := Words(k - 1, alphabet);
      var rows := Rows(alphabet, shorter);
      assert w[0] in alphabet;
      var a :| 0 <= a < |alphabet| && alphabet[a] == w[0];
      assert Over(w[1..], alphabet) by {
        forall i | 0 <= i < |w[1..]| ensures w[1..][i] in alphabet {
          assert w[1..][i] == w[i + 1];
        }
      }
      WordsComplete(k - 1, alphabet, w[1..]);
      var j :| 0 <= j < |shorter| && shorter[j] == w[1..];
      assert rows[a][j] == w;
      FlattenContains(rows, w);
    }
  }
}
