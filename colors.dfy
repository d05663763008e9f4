/** The colour-name table of the tmemes package and the reverse table that
    the package's `init` builds from it. */
module Colors {

  /** Colour names (lower case) and their web hex codes "#rrggbb". */
  const N2C: map<string, string> := map[
    "white" := "#ffffff",
    "silver" := "#c0c0c0",
    "gray" := "#808080",
    "black" := "#000000",
    "red" := "#ff0000",
    "maroon" := "#800000",
    "yellow" := "#ffff00",
    "olive" := "#808000",
    "lime" := "#00ff00",
    "green" := "#008000",
    "aqua" := "#00ffff",
    "teal" := "#008080",
    "blue" := "#0000ff",
    "navy" := "#000080",
    "fuchsia" := "#ff00ff",
    "purple" := "#800080"
  ]

  /** No two names share a code. */
  ghost predicate Injective(m: map<string, string>) {
    forall a, b :: a in m && b in m && m[a] == m[b] ==> a == b
  }

  /** `c2n` is a reverse table of `n2c`: its keys are exactly the codes of
      `n2c`, and each maps to a name that has that code. */
  ghost predicate IsReverse(n2c: map<string, string>, c2n: map<string, string>) {
    c2n.Keys == n2c.Values &&
    forall c :: c in c2n ==> c2n[c] in n2c && n2c[c2n[c]] == c
  }

  /** The reverse of an injective table. */
  function Inverse(m: map<string, string>): (r: map<string, string>)
    requires Injective(m)
    ensures IsReverse(m, r)
    ensures forall n :: n in m ==> m[n] in r && r[m[n]] == n
  {
    var r := map n | n in m :: m[n] := n;
    assert forall c :: c in r.Keys ==> c in m.Values;
    assert forall c :: c in m.Values ==> c in r.Keys;
    r
  }

  lemma N2CInjective()
    ensures Injective(N2C)
  {
  }

  /** The reverse table used by MarshalText. */
  const C2N: map<string, string> := (N2CInjective(); Inverse(N2C))

  /** The package `init`: visits the names of `n2c` in an unspecified order
      (Go's map iteration order) and records a name for a code only when
      the code has none yet. `order` is the visiting order. */
  method BuildC2N(n2c: map<string, string>) returns (c2n: map<string, string>, ghost order: seq<string>)
    ensures |order| == |n2c.Keys| && (forall n :: n in order <==> n in n2c)
    ensures IsReverse(n2c, c2n)
    // the first name visited for a code is the one kept
    ensures forall c :: c in c2n ==> c2n[c] == order[FirstWith(n2c, order, c)]
    ensures Injective(n2c) ==> c2n == Inverse(n2c)
  {
    c2n := map[];
    order := [];
    var rest := n2c.Keys;
    while rest != {}
      invariant rest <= n2c.Keys
      invariant forall k :: 0 <= k < |order| ==> order[k] in n2c
      invariant forall n :: n in n2c ==> (n in order <==> n !in rest)
      invariant |order| + |rest| == |n2c.Keys|
      invariant c2n == FirstWins(n2c, order)
      decreases rest
    {
      var n :| n in rest;
      ghost var visited := order;
      if n2c[n] !in c2n {
        c2n := c2n[n2c[n] := n];
      }
      order := order + [n];
      assert order[..|order| - 1] == visited;
      rest := rest - {n};
    }
    FirstWinsReverse(n2c, order);
    if Injective(n2c) {
      ReverseUnique(n2c, c2n);
    }
  }

  /** The reverse table that first-wins insertion builds when the names are
      visited in `order`. */
  ghost function FirstWins(n2c: map<string, string>, order: seq<string>): map<string, string>
    requires forall k :: 0 <= k < |order| ==> order[k] in n2c
    decreases |order|
  {
    if |order| == 0 then map[]
    else
      var m := FirstWins(n2c, order[..|order| - 1]);
      var n := order[|order| - 1];
      if n2c[n] in m then m else m[n2c[n] := n]
  }

  /** The index of the first name in `order` whose code is `c`, or
      `|order|` when there is none. */
  function FirstWith(n2c: map<string, string>, order: seq<string>, c: string): (i: nat)
    requires forall k :: 0 <= k < |order| ==> order[k] in n2c
    ensures i <= |order|
    ensures i < |order| ==> n2c[order[i]] == c
    ensures forall k :: 0 <= k < i ==> n2c[order[k]] != c
    decreases |order|
  {
    if |order| == 0 then 0
    else
      var front := order[..|order| - 1];
      var j := FirstWith(n2c, front, c);
      assert forall k :: 0 <= k < |front| ==> front[k] == order[k];
      if j < |front| then j
      else if n2c[order[|order| - 1]] == c then |front|
      else |order|
  }

  /** The first-wins table holds, for every code met in `order`, the first
      name met with that code, and nothing else. */
  lemma {:induction false} FirstWinsFirst(n2c: map<string, string>, order: seq<string>)
    requires forall k :: 0 <= k < |order| ==> order[k] in n2c
    ensures forall c :: c in FirstWins(n2c, order) <==> FirstWith(n2c, order, c) < |order|
    ensures forall c :: c in FirstWins(n2c, order) ==>
              FirstWins(n2c, order)[c] == order[FirstWith(n2c, order, c)]
    decreases |order|
  {
    if |order| > 0 {
      var front := order[..|order| - 1];
      FirstWinsFirst(n2c, front);
      assert forall k :: 0 <= k < |front| ==> front[k] == order[k];
    }
  }

  /** When `order` visits every name, the first-wins table is a reverse
      table. */
  lemma FirstWinsReverse(n2c: map<string, string>, order: seq<string>)
    requires forall k :: 0 <= k < |order| ==> order[k] in n2c
    requires forall n :: n in n2c ==> n in order
    ensures IsReverse(n2c, FirstWins(n2c, order))
    ensures forall c :: c in FirstWins(n2c, order) ==>
              FirstWins(n2c, order)[c] == order[FirstWith(n2c, order, c)]
  {
    FirstWinsFirst(n2c, order);
    var m := FirstWins(n2c, order);
    forall c | c in n2c.Values ensures c in m {
      var n :| n in n2c && n2c[n] == c;
      var i :| 0 <= i < |order| && order[i] == n;
    }
  }

  /** With distinct codes there is only one reverse table. */
  lemma ReverseUnique(n2c: map<string, string>, c2n: map<string, string>)
    requires Injective(n2c) && IsReverse(n2c, c2n)
    ensures c2n == Inverse(n2c)
  {
    var inv := Inverse(n2c);
    forall c | c in c2n ensures c2n[c] == inv[c] {
      var n := c2n[c];
      assert inv[n2c[n]] == n;
    }
  }

  /** Every code of the table is mapped back to its own name. */
  lemma C2NInvertsN2C(n: string)
    requires n in N2C
    ensures N2C[n] in C2N && C2N[N2C[n]] == n
  {
  }
}
