/**
  * Child key derivation of crypto/bip32.c on the ECDSA curves. The group and HMAC-SHA512 are
  * parameters: any group of order n with a generator, any function for the HMAC.
  */
module Bip32 {
  import opened Options

  /** Multiples of the generator, point addition, and the point at infinity. */
  datatype Group<!Point> = Group(n: nat, mult: nat -> Point, add: (Point, Point) -> Point, infinity: Point)

  ghost predicate ValidGroup<Point>(g: Group<Point>) {
    && g.n > 1
    && (forall a, b {:trigger g.add(g.mult(a), g.mult(b))} ::
          0 <= a < g.n && 0 <= b < g.n ==> g.add(g.mult(a), g.mult(b)) == g.mult((a + b) % g.n))
    && (forall a {:trigger g.mult(a)} :: 0 <= a < g.n ==> (g.mult(a) == g.infinity <==> a == 0))
  }

  /** The 37 bytes fed to the HMAC: by their first byte 0, 2 or 3, or 1 on a retry. */
  datatype Data<Point, Chain> =
    | Hardened(key: nat, i: nat)
    | Normal(pub: Point, i: nat)
    | Again(right: Chain, i: nat)

  const HARDENED: nat := 0x8000_0000

  /** The halves of the t-th HMAC output: each retry feeds the right half of the last one. */
  function Candidate<Point, Chain>(hmac: (Chain, Data<Point, Chain>) -> (nat, Chain), chain: Chain, first: Data<Point, Chain>, i: nat, t: nat): (nat, Chain) {
    if t == 0 then hmac(chain, first)
    else hmac(chain, Again(Candidate(hmac, chain, first, i, t - 1).1, i))
  }

  /** HMAC outputs in a row: each is made from the right half of the one before. */
  ghost predicate Tries<Point, Chain>(hmac: (Chain, Data<Point, Chain>) -> (nat, Chain), chain: Chain, i: nat, halves: seq<(nat, Chain)>) {
    forall s :: 0 < s < |halves| ==> halves[s] == hmac(chain, Again(halves[s - 1].1, i))
  }

  /** hdnode_private_ckd_bip32 accepts the left half for the private key a. */
  predicate PrivateAccepts(n: nat, a: nat, left: nat)
    requires n > 0
  {
    left < n && (left + a) % n != 0
  }

  /** hdnode_public_ckd_cp accepts it for the parent point. */
  ghost predicate PublicAccepts<Point>(g: Group<Point>, parent: Point, left: nat) {
    left < g.n && g.add(parent, g.mult(left)) != g.infinity
  }

  /** t is the first candidate that the private derivation accepts. */
  ghost predicate FirstPrivate<Point, Chain>(n: nat, a: nat, hmac: (Chain, Data<Point, Chain>) -> (nat, Chain), chain: Chain, first: Data<Point, Chain>, i: nat, t: nat)
    requires n > 0
  {
    PrivateAccepts(n, a, Candidate(hmac, chain, first, i, t).0)
    && forall s: nat :: s < t ==> !PrivateAccepts(n, a, Candidate(hmac, chain, first, i, s).0)
  }

  ghost predicate FirstPublic<Point, Chain>(g: Group<Point>, parent: Point, hmac: (Chain, Data<Point, Chain>) -> (nat, Chain), chain: Chain, i: nat, t: nat) {
    PublicAccepts(g, parent, Candidate(hmac, chain, Normal(parent, i), i, t).0)
    && forall s: nat :: s < t ==> !PublicAccepts(g, parent, Candidate(hmac, chain, Normal(parent, i), i, s).0)
  }

  /** A private node: on an ECDSA curve (params) or not, with the public key filled in or not. */
  datatype Node<Point, Chain> = Node(depth: nat, childNum: nat, chain: Chain, key: nat, pub: Option<Point>, params: bool)

  /** What the derivation hashes first. */
  function FirstData<Point, Chain>(g: Group<Point>, node: Node<Point, Chain>, i: nat): Data<Point, Chain> {
    if i >= HARDENED then Hardened(node.key, i) else Normal(g.mult(node.key), i)
  }

  /** The public key, when it is filled in, is that of the private key. */
  ghost predicate ValidNode<Point, Chain>(g: Group<Point>, node: Node<Point, Chain>) {
    node.key < g.n && (node.pub.Some? ==> node.key != 0 && node.pub.value == g.mult(node.key))
  }

  /**
    * A private derivation by the HMAC outputs it went through: the first is made from the private
    * key for i >= 2^31 and from the public key below, every one but the last is unusable, and
    * the last one is added to the key.
    */
  ghost predicate PrivateTries<Point, Chain>(g: Group<Point>, hmac: (Chain, Data<Point, Chain>) -> (nat, Chain), node: Node<Point, Chain>, i: nat, child: Node<Point, Chain>, halves: seq<(nat, Chain)>)
    requires g.n > 0
  {
    var t := |halves| - 1;
    && t >= 0 && Tries(hmac, node.chain, i, halves)
    && halves[0] == hmac(node.chain, if i >= 0x8000_0000 then Hardened(node.key, i) else Normal(g.mult(node.key), i))
    && (forall s :: 0 <= s < t ==> halves[s].0 >= g.n || (halves[s].0 + node.key) % g.n == 0)
    && halves[t].0 < g.n && (halves[t].0 + node.key) % g.n != 0
    && child == Node(node.depth + 1, i, halves[t].1, (halves[t].0 + node.key) % g.n, None, true)
  }

  /** A public derivation in the same way. */
  ghost predicate PublicTries<Point, Chain>(g: Group<Point>, hmac: (Chain, Data<Point, Chain>) -> (nat, Chain), parent: Point, chain: Chain, i: nat, child: Point, childChain: Chain, halves: seq<(nat, Chain)>) {
    var t := |halves| - 1;
    && t >= 0 && Tries(hmac, chain, i, halves)
    && halves[0] == hmac(chain, Normal(parent, i))
    && (forall s :: 0 <= s < t ==> halves[s].0 >= g.n || g.add(parent, g.mult(halves[s].0)) == g.infinity)
    && halves[t].0 < g.n && child == g.add(parent, g.mult(halves[t].0)) && child != g.infinity && childChain == halves[t].1
  }

  /**
    * hdnode_private_ckd_bip32. On an ECDSA curve the loop retries until a candidate is accepted;
    * `enough` is a round by which one is; a zero key has no public key, so no normal children. On
    * another curve only hardened children exist, and the left half is the key.
    */
  method PrivateCkd<Point(==), Chain>(g: Group<Point>, hmac: (Chain, Data<Point, Chain>) -> (nat, Chain), node: Node<Point, Chain>, i: nat, ghost enough: nat)
    returns (ok: bool, child: Node<Point, Chain>, ghost t: nat, ghost halves: seq<(nat, Chain)>)
    requires g.n > 1 && (node.params ==> ValidNode(g, node))
    requires node.params ==> PrivateAccepts(g.n, node.key, Candidate(hmac, node.chain, FirstData(g, node, i), i, enough).0)
    ensures ok <==> i >= HARDENED || (node.params && node.key != 0)
    ensures node.params && ok ==> FirstPrivate(g.n, node.key, hmac, node.chain, FirstData(g, node, i), i, t)
    ensures node.params && ok ==> var (left, right) := Candidate(hmac, node.chain, FirstData(g, node, i), i, t);
            child == Node(node.depth + 1, i, right, (left + node.key) % g.n, None, true) && 0 < child.key < g.n
    ensures node.params && ok ==> PrivateTries(g, hmac, node, i, child, halves)
    ensures !node.params && ok ==> var (left, right) := hmac(node.chain, Hardened(node.key, i));
            child == Node(node.depth + 1, i, right, left, None, false)
    ensures !ok ==> child == node
  {
    t := 0;
    var data: Data<Point, Chain>;
    halves := [];
    if i >= HARDENED {
      data := Hardened(node.key, i);
    } else {
      if !node.params { return false, node, 0, []; }
      if node.pub.None? && node.key == 0 { return false, node, 0, []; }
      var pub := if node.pub.Some? then node.pub.value else g.mult(node.key);
      data := Normal(pub, i);
    }
    ghost var first := data;
    var I := hmac(node.chain, data);
    if !node.params {
      return true, Node(node.depth + 1, i, I.1, I.0, None, false), 0, [];
    }
    halves := [I];
    while true
      invariant I == Candidate(hmac, node.chain, first, i, t)
      invariant Tries(hmac, node.chain, i, halves) && |halves| == t + 1 && halves[t] == I
      invariant halves[0] == hmac(node.chain, first)
      invariant forall s :: 0 <= s < t ==> halves[s].0 >= g.n || (halves[s].0 + node.key) % g.n == 0
      invariant forall s: nat :: s < t ==> !PrivateAccepts(g.n, node.key, Candidate(hmac, node.chain, first, i, s).0)
      invariant t <= enough
      decreases enough - t
    {
      var b := I.0;
      var failed := false;
      if b >= g.n {
        failed := true;
      } else {
        b := (b + node.key) % g.n;
        if b == 0 { failed := true; }
      }
      if !failed {
        child := Node(node.depth + 1, i, I.1, b, None, true);
        return true, child, t, halves;
      }
      data := Again(I.1, i);
      I := hmac(node.chain, data);
      halves := halves + [I];
      t := t + 1;
    }
  }

  /** hdnode_public_ckd_cp; hardened children are refused. */
  method PublicCkd<Point(==), Chain>(g: Group<Point>, hmac: (Chain, Data<Point, Chain>) -> (nat, Chain), parent: Point, chain: Chain, i: nat, ghost enough: nat)
    returns (ok: bool, child: Point, childChain: Chain, ghost t: nat, ghost halves: seq<(nat, Chain)>)
    requires i < HARDENED ==> PublicAccepts(g, parent, Candidate(hmac, chain, Normal(parent, i), i, enough).0)
    ensures ok <==> i < 0x8000_0000
    ensures ok ==> PublicTries(g, hmac, parent, chain, i, child, childChain, halves)
    ensures ok ==> FirstPublic(g, parent, hmac, chain, i, t)
    ensures ok ==> var (left, right) := Candidate(hmac, chain, Normal(parent, i), i, t);
                   child == g.add(parent, g.mult(left)) && childChain == right && child != g.infinity
  {
    child, childChain, t, halves := parent, chain, 0, [];
    if i >= HARDENED { return false, child, childChain, 0, []; }
    var data: Data<Point, Chain> := Normal(parent, i);
    halves := [hmac(chain, data)];
    while true
      invariant Tries(hmac, chain, i, halves) && |halves| == t + 1 && halves[t] == hmac(chain, data)
      invariant halves[0] == hmac(chain, Normal(parent, i))
      invariant forall s :: 0 <= s < t ==> halves[s].0 >= g.n || g.add(parent, g.mult(halves[s].0)) == g.infinity
      invariant hmac(chain, data) == Candidate(hmac, chain, Normal(parent, i), i, t)
      invariant forall s: nat :: s < t ==> !PublicAccepts(g, parent, Candidate(hmac, chain, Normal(parent, i), i, s).0)
      invariant t <= enough
      decreases enough - t
    {
      var I := hmac(chain, data);
      if I.0 < g.n {
        child := g.mult(I.0);
        child := g.add(parent, child);
        if child != g.infinity { return true, child, I.1, t, halves; }
      }
      data := Again(I.1, i);
      halves := halves + [hmac(chain, data)];
      t := t + 1;
    }
  }

  // ----- The two derivations agree

  lemma SameAcceptance<Point>(g: Group<Point>, a: nat, left: nat)
    requires ValidGroup(g) && a < g.n
    ensures PublicAccepts(g, g.mult(a), left) <==> PrivateAccepts(g.n, a, left)
    ensures left < g.n ==> g.add(g.mult(a), g.mult(left)) == g.mult((left + a) % g.n)
  {
    if left < g.n {
      assert g.add(g.mult(a), g.mult(left)) == g.mult((a + left) % g.n);
    }
  }

  lemma {:induction false} FirstIsUnique<Point, Chain>(n: nat, a: nat, hmac: (Chain, Data<Point, Chain>) -> (nat, Chain), chain: Chain, first: Data<Point, Chain>, i: nat, t: nat, u: nat)
    requires n > 0 && FirstPrivate(n, a, hmac, chain, first, i, t) && FirstPrivate(n, a, hmac, chain, first, i, u)
    ensures t == u
  {}

  /** The first acceptable candidate is the same on both sides. */
  lemma SameFirst<Point, Chain>(g: Group<Point>, a: nat, hmac: (Chain, Data<Point, Chain>) -> (nat, Chain), chain: Chain, i: nat, t: nat)
    requires ValidGroup(g) && a < g.n
    ensures FirstPublic(g, g.mult(a), hmac, chain, i, t) <==> FirstPrivate(g.n, a, hmac, chain, Normal(g.mult(a), i), i, t)
  {
    hide Candidate, PublicAccepts, PrivateAccepts;
    var first: Data<Point, Chain> := Normal(g.mult(a), i);
    forall s: nat ensures PublicAccepts(g, g.mult(a), Candidate(hmac, chain, first, i, s).0)
                     <==> PrivateAccepts(g.n, a, Candidate(hmac, chain, first, i, s).0) {
      SameAcceptance(g, a, Candidate(hmac, chain, first, i, s).0);
    }
  }

  /** Deriving the private child and taking its public key is deriving the public child. */
  method DeriveBothWays<Point(==), Chain>(g: Group<Point>, hmac: (Chain, Data<Point, Chain>) -> (nat, Chain), node: Node<Point, Chain>, i: nat, ghost enough: nat)
    returns (child: Node<Point, Chain>, pub: Point, chain: Chain)
    requires ValidGroup(g) && node.params && ValidNode(g, node) && node.key != 0 && i < HARDENED
    requires PrivateAccepts(g.n, node.key, Candidate(hmac, node.chain, Normal(g.mult(node.key), i), i, enough).0)
    ensures pub == g.mult(child.key) && chain == child.chain
  {
    hide Candidate, FirstPublic, FirstPrivate, ValidGroup, PrivateTries, PublicTries;
    ghost var t, u: nat;
    ghost var mine, theirs: seq<(nat, Chain)>;
    var ok: bool;
    ok, child, t, mine := PrivateCkd(g, hmac, node, i, enough);
    SameAcceptance(g, node.key, Candidate(hmac, node.chain, Normal(g.mult(node.key), i), i, enough).0);
    ok, pub, chain, u, theirs := PublicCkd(g, hmac, g.mult(node.key), node.chain, i, enough);
    SameFirst(g, node.key, hmac, node.chain, i, u);
    FirstIsUnique(g.n, node.key, hmac, node.chain, Normal(g.mult(node.key), i), i, t, u);
    AcceptedLeft(g.n, node.key, hmac, node.chain, FirstData(g, node, i), i, t);
    SameAcceptance(g, node.key, Candidate(hmac, node.chain, Normal(g.mult(node.key), i), i, t).0);
  }

  lemma AcceptedLeft<Point, Chain>(n: nat, a: nat, hmac: (Chain, Data<Point, Chain>) -> (nat, Chain), chain: Chain, first: Data<Point, Chain>, i: nat, t: nat)
    requires n > 0 && FirstPrivate(n, a, hmac, chain, first, i, t)
    ensures Candidate(hmac, chain, first, i, t).0 < n
  {
    hide Candidate;
  }

  // ----- Whole paths

  /** child and its chain code are those of the private derivation of i from key. */
  ghost predicate PrivateChild<Point, Chain>(g: Group<Point>, hmac: (Chain, Data<Point, Chain>) -> (nat, Chain), key: nat, chain: Chain, i: nat, child: nat, childChain: Chain)
    requires g.n > 0
  {
    exists t: nat :: FirstPrivate(g.n, key, hmac, chain, Normal(g.mult(key), i), i, t)
                     && var (left, right) := Candidate(hmac, chain, Normal(g.mult(key), i), i, t);
                        child == (left + key) % g.n && childChain == right
  }

  ghost predicate PublicChild<Point, Chain>(g: Group<Point>, hmac: (Chain, Data<Point, Chain>) -> (nat, Chain), parent: Point, chain: Chain, i: nat, child: Point, childChain: Chain) {
    exists t: nat :: FirstPublic(g, parent, hmac, chain, i, t)
                     && var (left, right) := Candidate(hmac, chain, Normal(parent, i), i, t);
                        child == g.add(parent, g.mult(left)) && childChain == right
  }

  lemma ChildrenAgree<Point, Chain>(g: Group<Point>, hmac: (Chain, Data<Point, Chain>) -> (nat, Chain), key: nat, chain: Chain, i: nat, child: nat, childChain: Chain)
    requires ValidGroup(g) && key < g.n && PrivateChild(g, hmac, key, chain, i, child, childChain)
    ensures child < g.n && PublicChild(g, hmac, g.mult(key), chain, i, g.mult(child), childChain)
  {
    hide Candidate, FirstPublic, FirstPrivate, ValidGroup;
    var t: nat :| FirstPrivate(g.n, key, hmac, chain, Normal(g.mult(key), i), i, t)
                  && var (left, right) := Candidate(hmac, chain, Normal(g.mult(key), i), i, t);
                     child == (left + key) % g.n && childChain == right;
    var first: Data<Point, Chain> := Normal(g.mult(key), i);
    SameFirst(g, key, hmac, chain, i, t);
    AcceptedLeft(g.n, key, hmac, chain, first, i, t);
    SameAcceptance(g, key, Candidate(hmac, chain, first, i, t).0);
  }

  /** keys and chains are the private keys and chain codes along the path. */
  ghost predicate PrivatePath<Point, Chain>(g: Group<Point>, hmac: (Chain, Data<Point, Chain>) -> (nat, Chain), path: seq<nat>, keys: seq<nat>, chains: seq<Chain>)
    requires g.n > 0
  {
    |keys| == |chains| == |path| + 1 && keys[0] < g.n
    && forall j :: 0 <= j < |path| ==> PrivateChild(g, hmac, keys[j], chains[j], path[j], keys[j + 1], chains[j + 1])
  }

  ghost predicate PublicPath<Point, Chain>(g: Group<Point>, hmac: (Chain, Data<Point, Chain>) -> (nat, Chain), path: seq<nat>, points: seq<Point>, chains: seq<Chain>) {
    |points| == |chains| == |path| + 1
    && forall j :: 0 <= j < |path| ==> PublicChild(g, hmac, points[j], chains[j], path[j], points[j + 1], chains[j + 1])
  }

  function Points<Point>(g: Group<Point>, keys: seq<nat>): (p: seq<Point>)
    ensures |p| == |keys| && forall j :: 0 <= j < |keys| ==> p[j] == g.mult(keys[j])
  {
    seq(|keys|, j requires 0 <= j < |keys| => g.mult(keys[j]))
  }

  /** Along every path, the public keys of the private derivation are the public derivation. */
  lemma PathsAgree<Point, Chain>(g: Group<Point>, hmac: (Chain, Data<Point, Chain>) -> (nat, Chain), path: seq<nat>, keys: seq<nat>, chains: seq<Chain>)
    requires ValidGroup(g) && PrivatePath(g, hmac, path, keys, chains)
    ensures PublicPath(g, hmac, path, Points(g, keys), chains)
  {
    hide PrivateChild, PublicChild, ValidGroup;
    forall j | 0 <= j < |path|
      ensures PublicChild(g, hmac, Points(g, keys)[j], chains[j], path[j], Points(g, keys)[j + 1], chains[j + 1])
    {
      KeysBelow(g, hmac, path, keys, chains, j);
      ChildrenAgree(g, hmac, keys[j], chains[j], path[j], keys[j + 1], chains[j + 1]);
    }
  }

  lemma {:induction false} KeysBelow<Point, Chain>(g: Group<Point>, hmac: (Chain, Data<Point, Chain>) -> (nat, Chain), path: seq<nat>, keys: seq<nat>, chains: seq<Chain>, j: nat)
    requires ValidGroup(g) && PrivatePath(g, hmac, path, keys, chains) && j <= |path|
    ensures keys[j] < g.n
  {
    hide PrivateChild, PublicChild;
    if j > 0 {
      KeysBelow(g, hmac, path, keys, chains, j - 1);
      ChildrenAgree(g, hmac, keys[j - 1], chains[j - 1], path[j - 1], keys[j], chains[j]);
    }
  }

  /** The integers modulo n, with the generator 1. */
  function Integers(n: nat): Group<int>
    requires n > 1
  {
    Group(n, (a: nat) => if a < n then a else a % n, (a: int, b: int) => (a + b) % n, 0)
  }

  lemma IntegersAreGroup(n: nat)
    requires n > 1
    ensures ValidGroup(Integers(n))
  {
    var g := Integers(n);
    forall a, b | 0 <= a < n && 0 <= b < n ensures g.add(g.mult(a), g.mult(b)) == g.mult((a + b) % n) {
      var r := (a + b) % n;
      assert 0 <= r < n;
    }
  }
}
