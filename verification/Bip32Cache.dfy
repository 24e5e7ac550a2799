/**
  * The derivation cache of crypto/bip32.c. One derivation step, the public key it fills in
  * for a fingerprint, and the fingerprint itself are parameters: the cache is transparent
  * whatever they are.
  */
module Bip32Cache {
  import opened Options

  const CACHE_SIZE: nat := 10
  const MAX_DEPTH: nat := 8

  /** A step, with its status and the node it leaves; filling the public key; the fingerprint; the curve. */
  datatype Deriver<!Node> = Deriver(ckd: (Node, nat) -> (bool, Node), fill: Node -> Node, fingerprint: Node -> nat, curve: Node -> nat)

  datatype Slot<Node> = Slot(filled: bool, path: seq<nat>, node: Node)

  /** Derivation along a path, stopping at the first step that fails. */
  function Steps<Node>(d: Deriver<Node>, node: Node, path: seq<nat>): (bool, Node) {
    if path == [] then (true, node)
    else
      var (ok, parent) := Steps(d, node, path[..|path| - 1]);
      if ok then d.ckd(parent, path[|path| - 1]) else (false, parent)
  }

  /** What a call answers: the status, the node left in place, and the parent's fingerprint if it was written. */
  datatype Answer<Node> = Answer(ok: bool, node: Node, fingerprint: Option<nat>)

  /** The last step, after the fingerprint of the parent (which fills in its public key) when one is asked for. */
  function LastStep<Node>(d: Deriver<Node>, parent: Node, i: nat, wanted: bool): Answer<Node> {
    var p := if wanted then d.fill(parent) else parent;
    var (ok, child) := d.ckd(p, i);
    Answer(ok, child, if wanted then Some(d.fingerprint(parent)) else None)
  }

  /** The whole derivation without a cache. */
  function Uncached<Node>(d: Deriver<Node>, node: Node, path: seq<nat>, wanted: bool): Answer<Node> {
    if path == [] then Answer(true, node, None)
    else
      var (ok, parent) := Steps(d, node, path[..|path| - 1]);
      if ok then LastStep(d, parent, path[|path| - 1], wanted) else Answer(false, parent, None)
  }

  class Cache<Node(==)> {
    const d: Deriver<Node>
    const slots: array<Slot<Node>>
    var rootSet: bool
    var root: Node
    var index: nat

    /** Every filled slot holds what its path derives from the root. */
    ghost predicate Valid()
      reads this, slots
    {
      && slots.Length == CACHE_SIZE && index < CACHE_SIZE
      && (!rootSet ==> forall j :: 0 <= j < CACHE_SIZE ==> !slots[j].filled)
      && (forall j :: 0 <= j < CACHE_SIZE && slots[j].filled ==> Steps(d, root, slots[j].path) == (true, slots[j].node))
    }

    constructor (deriver: Deriver<Node>, blank: Node)
      ensures Valid() && !rootSet && d == deriver && fresh(slots)
    {
      d := deriver;
      slots := new Slot<Node>[CACHE_SIZE](_ => Slot(false, [], blank));
      rootSet, root, index := false, blank, 0;
    }

    /** bip32_cache_clear. */
    method Clear()
      requires Valid()
      modifies this, slots
      ensures Valid() && !rootSet
    {
      Empty();
      rootSet := false;
    }

    /** index = 0 and all slots unset. */
    method Empty()
      requires Valid()
      modifies this`index, slots
      ensures slots.Length == CACHE_SIZE && index == 0 && forall j :: 0 <= j < CACHE_SIZE ==> !slots[j].filled
    {
      index := 0;
      for k := 0 to CACHE_SIZE
        invariant index == 0 && forall j :: 0 <= j < k ==> !slots[j].filled
      {
        slots[k] := slots[k].(filled := false);
      }
    }

    /** The search among the slots. */
    method Find(node: Node, parentPath: seq<nat>) returns (found: bool, parent: Node)
      requires Valid() && root == node
      ensures found ==> Steps(d, node, parentPath) == (true, parent)
      ensures !found ==> parent == node
    {
      for j := 0 to CACHE_SIZE {
        if slots[j].filled && slots[j].path == parentPath && d.curve(slots[j].node) == d.curve(node) {
          return true, slots[j].node;
        }
      }
      return false, node;
    }

    /**
      * hdnode_private_ckd_cached: the same node, status and fingerprint as without a cache,
      * through changes of root and slots overwritten in turn.
      */
    method CkdCached(inout: Node, path: seq<nat>, wanted: bool) returns (answer: Answer<Node>)
      requires Valid() && |path| <= MAX_DEPTH + 1
      modifies this, slots
      ensures Valid() && answer == Uncached(d, inout, path, wanted)
    {
      var n := |path|;
      if n == 0 { return Answer(true, inout, None); }
      if n == 1 {
        assert path[..0] == [];
        answer := Last(inout, path[0], wanted);
        return;
      }
      var found, node := false, inout;
      if !rootSet || root != inout {
        Empty();
        root, rootSet := inout, true;
      } else {
        found, node := Find(inout, path[..n - 1]);
      }
      if !found {
        var ok: bool;
        ok, node := DeriveParent(inout, path[..n - 1]);
        if !ok { return Answer(false, node, None); }
        slots[index] := Slot(true, path[..n - 1], node);
        index := (index + 1) % CACHE_SIZE;
      }
      answer := Last(node, path[n - 1], wanted);
    }

    method DeriveParent(inout: Node, path: seq<nat>) returns (ok: bool, node: Node)
      ensures (ok, node) == Steps(d, inout, path)
    {
      node := inout;
      for k := 0 to |path|
        invariant Steps(d, inout, path[..k]) == (true, node)
      {
        assert path[..k + 1][..k] == path[..k];
        var step := d.ckd(node, path[k]);
        node := step.1;
        if !step.0 {
          Failed(d, inout, path, k + 1);
          return false, node;
        }
      }
      assert path[..|path|] == path;
      ok := true;
    }

    method Last(parent: Node, i: nat, wanted: bool) returns (answer: Answer<Node>)
      ensures answer == LastStep(d, parent, i, wanted)
    {
      var node, fingerprint := parent, None;
      if wanted {
        fingerprint := Some(d.fingerprint(node));
        node := d.fill(node);
      }
      var (ok, child) := d.ckd(node, i);
      return Answer(ok, child, fingerprint);
    }

    /** Any sequence of calls is answered as if there were no cache. */
    method Run(calls: seq<Call<Node>>) returns (answers: seq<Answer<Node>>)
      requires Valid() && forall i :: 0 <= i < |calls| ==> |calls[i].path| <= MAX_DEPTH + 1
      modifies this, slots
      ensures Valid() && |answers| == |calls|
      ensures forall i :: 0 <= i < |calls| ==> answers[i] == Uncached(d, calls[i].node, calls[i].path, calls[i].wanted)
    {
      answers := [];
      for i := 0 to |calls|
        invariant Valid() && |answers| == i
        invariant forall j :: 0 <= j < i ==> answers[j] == Uncached(d, calls[j].node, calls[j].path, calls[j].wanted)
      {
        var a := CkdCached(calls[i].node, calls[i].path, calls[i].wanted);
        answers := answers + [a];
      }
    }
  }

  datatype Call<Node> = Call(node: Node, path: seq<nat>, wanted: bool)

  /** A step that fails leaves the rest of the path undone. */
  lemma {:induction false} Failed<Node>(d: Deriver<Node>, node: Node, path: seq<nat>, k: nat)
    requires 0 < k <= |path| && !Steps(d, node, path[..k]).0
    ensures Steps(d, node, path) == Steps(d, node, path[..k])
    decreases |path|
  {
    if k == |path| {
      assert path[..k] == path;
    } else {
      var p := path[..|path| - 1];
      assert p[..k] == path[..k];
      Failed(d, node, p, k);
    }
  }

  /** nodes are the nodes along the path, each derived from the one before. */
  ghost predicate Along<Node>(d: Deriver<Node>, node: Node, path: seq<nat>, nodes: seq<Node>) {
    && |nodes| == |path| + 1 && nodes[0] == node
    && forall j :: 0 <= j < |path| ==> d.ckd(nodes[j], path[j]) == (true, nodes[j + 1])
  }

  lemma {:induction false} StepsAlong<Node>(d: Deriver<Node>, node: Node, path: seq<nat>, nodes: seq<Node>)
    requires Along(d, node, path, nodes)
    ensures Steps(d, node, path) == (true, nodes[|path|])
  {
    if path != [] {
      var n := |path| - 1;
      StepsAlong(d, node, path[..n], nodes[..n + 1]);
    }
  }

  /**
    * What a call answers, by the nodes along the path to the parent: the parent's fingerprint, if it
    * is asked for, and the child of the parent, whose public key the fingerprint has filled in.
    */
  lemma AnswerAlong<Node>(d: Deriver<Node>, node: Node, path: seq<nat>, i: nat, wanted: bool, nodes: seq<Node>)
    requires Along(d, node, path, nodes)
    ensures var a, parent := Uncached(d, node, path + [i], wanted), nodes[|path|];
            && (a.ok, a.node) == d.ckd(if wanted then d.fill(parent) else parent, i)
            && a.fingerprint == if wanted then Some(d.fingerprint(parent)) else None
    ensures Uncached(d, node, [], wanted) == Answer(true, node, None)
  {
    assert (path + [i])[..|path|] == path;
    StepsAlong(d, node, path, nodes);
  }

  /** A step on the way to the parent that fails ends the call there, without a fingerprint. */
  lemma AnswerOnFailure<Node>(d: Deriver<Node>, node: Node, path: seq<nat>, i: nat, rest: seq<nat>, wanted: bool, nodes: seq<Node>)
    requires Along(d, node, path, nodes) && !d.ckd(nodes[|path|], i).0 && rest != []
    ensures Uncached(d, node, path + [i] + rest, wanted) == Answer(false, d.ckd(nodes[|path|], i).1, None)
  {
    var whole := path + [i] + rest;
    var way := whole[..|whole| - 1];
    assert way[..|path| + 1] == path + [i] && (path + [i])[..|path|] == path;
    StepsAlong(d, node, path, nodes);
    Failed(d, node, way, |path| + 1);
  }
}
