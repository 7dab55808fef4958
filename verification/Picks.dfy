/** Choosing elements of a sequence by their places, in order. */
module Picks {
  /** Places below n, each once, in order. */
  ghost predicate Ascending(js: seq<nat>, n: nat) {
    && (forall i | 0 <= i < |js| :: js[i] < n)
    && (forall i, j | 0 <= i < j < |js| :: js[i] < js[j])
  }

  /** out holds exactly the elements of all at these places, in order. */
  ghost predicate Picked<T>(all: seq<T>, js: seq<nat>, out: seq<T>) {
    Ascending(js, |all|) && |out| == |js| && forall i | 0 <= i < |js| :: out[i] == all[js[i]]
  }

  /** One more element, picked or not. */
  lemma AscendingSnoc(js: seq<nat>, n: nat)
    requires Ascending(js, n)
    ensures Ascending(js, n + 1) && Ascending(js + [n], n + 1)
    ensures n !in js && forall j: nat :: j in js + [n] <==> j in js || j == n
  {}

  lemma PickedSnoc<T>(all: seq<T>, js: seq<nat>, out: seq<T>, x: T)
    requires Picked(all, js, out)
    ensures Picked(all + [x], js, out) && Picked(all + [x], js + [|all|], out + [x])
  {
    AscendingSnoc(js, |all|);
  }

  /** The same places behind one more element in front. */
  ghost function Later(js: seq<nat>): seq<nat> {
    seq(|js|, i requires 0 <= i < |js| => js[i] + 1)
  }

  lemma LaterPlaces(js: seq<nat>, n: nat)
    requires Ascending(js, n)
    ensures Ascending(Later(js), n + 1) && Ascending([0] + Later(js), n + 1)
    ensures forall j: nat :: j in Later(js) <==> j > 0 && j - 1 in js
    ensures forall j: nat :: j in [0] + Later(js) <==> j == 0 || j - 1 in js
  {
    forall j: nat | j > 0 && j - 1 in js ensures j in Later(js) {
      var i :| 0 <= i < |js| && js[i] == j - 1;
      assert Later(js)[i] == j;
    }
  }

  /** One more element in front, picked or not. */
  lemma PickedFirst<T>(all: seq<T>, js: seq<nat>, out: seq<T>)
    requires all != [] && Picked(all[1..], js, out)
    ensures Picked(all, Later(js), out) && Picked(all, [0] + Later(js), [all[0]] + out)
    ensures forall j: nat :: j in Later(js) <==> j > 0 && j - 1 in js
    ensures forall j: nat :: j in [0] + Later(js) <==> j == 0 || j - 1 in js
  {
    LaterPlaces(js, |all| - 1);
    var rest := all[1..];
    assert forall i | 0 <= i < |js| :: all[js[i] + 1] == rest[js[i]];
  }
}
