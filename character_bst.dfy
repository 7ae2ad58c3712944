/**
 * The character index of the capstone database: an unbalanced binary search
 * tree of `Character` records keyed by `name`, which rejects duplicate names
 * (Capstone/CharacterDatabase/CharacterDatabase/Character.cpp).
 *
 * A node is a value `Node(left, data, right)`. The C++ helpers that return the
 * rebuilt subtree (`node->left = insert(node->left, c)`) become recursive
 * methods returning the new subtree value; the class `CharacterBST` owns the
 * root and reassigns it, as the public wrappers do.
 */
module CharacterBst {
  import opened StringOrder
  import opened Wrappers

  /** The record stored in a node. `name` is the key; the integer and string
      stats are carried along untouched (the float stats are not modelled). */
  datatype Character = Character(
    name: string,
    ability1: string, ability2: string, ability3: string, ability4: string,
    gunDPS: int, ammo: int, lightMeleeDMG: int, heavyMeleeDMG: int,
    health: int, stamina: int)

  datatype Tree = Leaf | Node(left: Tree, data: Character, right: Tree)

  /** The errors the public operations throw as `std::runtime_error`. */
  datatype BstError = InsertFailed(name: string) | UpdateFailed(name: string) | DeleteFailed(name: string)

  // ---------------------------------------------------------------------
  // Abstract view of a tree
  // ---------------------------------------------------------------------

  /** The ordered map a tree stands for: name to record. */
  function Contents(t: Tree): map<string, Character>
  {
    match t
    case Leaf => map[]
    case Node(l, c, r) => (Contents(l) + Contents(r))[c.name := c]
  }

  /** Strict search-tree order: left names below the node's name, right names above. */
  ghost predicate IsBST(t: Tree)
  {
    match t
    case Leaf => true
    case Node(l, c, r) =>
      && IsBST(l) && IsBST(r)
      && (forall k :: k in Contents(l) ==> Less(k, c.name))
      && (forall k :: k in Contents(r) ==> Less(c.name, k))
  }

  /** The records in in-order (left, node, right) sequence. */
  function InOrder(t: Tree): seq<Character>
  {
    match t
    case Leaf => []
    case Node(l, c, r) => InOrder(l) + [c] + InOrder(r)
  }

  /** The number of nodes. */
  function Size(t: Tree): nat
  {
    match t
    case Leaf => 0
    case Node(l, _, r) => Size(l) + 1 + Size(r)
  }

  /** The bare link structure of a tree, without its records. */
  datatype Skeleton = Tip | Fork(Skeleton, Skeleton)

  function Shape(t: Tree): Skeleton
  {
    match t
    case Leaf => Tip
    case Node(l, _, r) => Fork(Shape(l), Shape(r))
  }

  ghost predicate StrictlyAscending(s: seq<Character>)
  {
    forall i, j :: 0 <= i < j < |s| ==> Less(s[i].name, s[j].name)
  }

  /** The leftmost record of a non-empty tree. */
  function Leftmost(t: Tree): Character
    requires t.Node?
  {
    if t.left.Leaf? then t.data else Leftmost(t.left)
  }

  // ---------------------------------------------------------------------
  // Facts about the abstract view
  // ---------------------------------------------------------------------

  /** Every record is filed under its own name. */
  lemma {:induction false} ContentsKeyed(t: Tree)
    ensures forall k :: k in Contents(t) ==> Contents(t)[k].name == k
  {
    match t
    case Leaf =>
    case Node(l, c, r) =>
      ContentsKeyed(l);
      ContentsKeyed(r);
  }

  /** In a search tree, a name below the root's lives in the left subtree only. */
  lemma BelowRoot(t: Tree, k: string)
    ensures t.Node? && IsBST(t) && Less(k, t.data.name) ==>
      && k !in Contents(t.right)
      && (k in Contents(t) <==> k in Contents(t.left))
      && (k in Contents(t) ==> Contents(t)[k] == Contents(t.left)[k])
  {
    if t.Node? && IsBST(t) && Less(k, t.data.name) {
      LessAsymmetric(k, t.data.name);
    }
  }

  /** In a search tree, a name above the root's lives in the right subtree only. */
  lemma AboveRoot(t: Tree, k: string)
    ensures t.Node? && IsBST(t) && Less(t.data.name, k) ==>
      && k !in Contents(t.left)
      && (k in Contents(t) <==> k in Contents(t.right))
      && (k in Contents(t) ==> Contents(t)[k] == Contents(t.right)[k])
  {
    if t.Node? && IsBST(t) && Less(t.data.name, k) {
      LessAsymmetric(t.data.name, k);
    }
  }

  /** The root's name is in neither subtree. */
  lemma RootUnique(t: Tree)
    ensures t.Node? && IsBST(t) ==>
      t.data.name !in Contents(t.left) && t.data.name !in Contents(t.right)
  {
    if t.Node? {
      LessIrreflexive(t.data.name);
    }
  }

  /** `findMin`'s answer is the smallest name of the subtree. */
  lemma {:induction false} LeftmostIsMinimum(t: Tree)
    requires t.Node? && IsBST(t)
    ensures Leftmost(t).name in Contents(t) && Contents(t)[Leftmost(t).name] == Leftmost(t)
    ensures forall k :: k in Contents(t) && k != Leftmost(t).name ==> Less(Leftmost(t).name, k)
  {
    ContentsKeyed(t);
    var m := Leftmost(t);
    if t.left.Node? {
      LeftmostIsMinimum(t.left);
      BelowRoot(t, m.name);
      forall k | k in Contents(t) && k != m.name
        ensures Less(m.name, k)
      {
        if k in Contents(t.right) || k == t.data.name {
          if k != t.data.name {
            LessTransitive(m.name, t.data.name, k);
          }
        }
      }
    } else {
      RootUnique(t);
    }
  }

  /** The in-order sequence holds exactly the tree's records. */
  lemma {:induction false} InOrderRecords(t: Tree)
    requires IsBST(t)
    ensures forall i :: 0 <= i < |InOrder(t)| ==>
      InOrder(t)[i].name in Contents(t) && Contents(t)[InOrder(t)[i].name] == InOrder(t)[i]
    ensures forall k :: k in Contents(t) ==> Contents(t)[k] in InOrder(t)
  {
    match t
    case Leaf =>
    case Node(l, c, r) =>
      InOrderRecords(l);
      InOrderRecords(r);
      RootUnique(t);
      var s := InOrder(t);
      forall i | 0 <= i < |s|
        ensures s[i].name in Contents(t) && Contents(t)[s[i].name] == s[i]
      {
        if i < |InOrder(l)| {
          assert s[i] == InOrder(l)[i];
          BelowRoot(t, s[i].name);
        } else if i > |InOrder(l)| {
          assert s[i] == InOrder(r)[i - |InOrder(l)| - 1];
          AboveRoot(t, s[i].name);
        }
      }
  }

  /** For a search tree, the in-order names are strictly ascending. */
  lemma {:induction false} InOrderAscending(t: Tree)
    requires IsBST(t)
    ensures StrictlyAscending(InOrder(t))
  {
    match t
    case Leaf =>
    case Node(l, c, r) =>
      InOrderAscending(l);
      InOrderAscending(r);
      InOrderRecords(l);
      InOrderRecords(r);
      var s, n := InOrder(t), |InOrder(l)|;
      forall i, j | 0 <= i < j < |s|
        ensures Less(s[i].name, s[j].name)
      {
        if j < n {
          assert s[i] == InOrder(l)[i] && s[j] == InOrder(l)[j];
        } else if i > n {
          assert s[i] == InOrder(r)[i - n - 1] && s[j] == InOrder(r)[j - n - 1];
        } else if i == n {
          assert s[j] == InOrder(r)[j - n - 1];
        } else if j == n {
          assert s[i] == InOrder(l)[i];
        } else {
          assert s[i] == InOrder(l)[i] && s[j] == InOrder(r)[j - n - 1];
          LessTransitive(s[i].name, c.name, s[j].name);
        }
      }
  }

  /** The in-order sequence has one entry per node. */
  lemma {:induction false} InOrderLength(t: Tree)
    ensures |InOrder(t)| == Size(t)
  {
    match t
    case Leaf =>
    case Node(l, _, r) =>
      InOrderLength(l);
      InOrderLength(r);
  }

  // ---------------------------------------------------------------------
  // The private recursive helpers of CharacterBST
  // ---------------------------------------------------------------------

  /** `search(node, name)`: descend by name; `None` is `nullptr`. */
  function SearchNode(node: Tree, name: string): (r: Option<Character>)
    ensures r.Some? ==> r.value.name == name
    ensures IsBST(node) ==> r == if name in Contents(node) then Some(Contents(node)[name]) else None
  {
    match node
    case Leaf => None
    case Node(l, c, rt) =>
      if name == c.name then
        RootUnique(node);
        Some(c)
      else if Less(name, c.name) then
        BelowRoot(node, name);
        SearchNode(l, name)
      else
        LessTotal(name, c.name);
        AboveRoot(node, name);
        SearchNode(rt, name)
  }

  /** `insert(node, c)`: a new leaf where the descent falls off the tree, or
      `InsertFailed` if it meets the name, before any link is reassigned. */
  method InsertNode(node: Tree, c: Character) returns (r: Result<Tree, BstError>)
    ensures r.Failure? ==> r.error == InsertFailed(c.name) && c.name in Contents(node)
    ensures IsBST(node) ==> (r.Success? <==> c.name !in Contents(node))
    ensures IsBST(node) && r.Success? ==>
      IsBST(r.value) && Contents(r.value) == Contents(node)[c.name := c]
  {
    match node
    case Leaf =>
      return Success(Node(Leaf, c, Leaf));
    case Node(l, d, rt) =>
      if Less(c.name, d.name) {
        var sub := InsertNode(l, c);
        if sub.Failure? {
          return sub;
        }
        r := Success(Node(sub.value, d, rt));
        BelowRoot(node, c.name);
        if IsBST(node) {
          GraftLeft(node, sub.value);
          AddBelowRoot(node, sub.value, c);
        }
      } else if Less(d.name, c.name) {
        var sub := InsertNode(rt, c);
        if sub.Failure? {
          return sub;
        }
        r := Success(Node(l, d, sub.value));
        AboveRoot(node, c.name);
        if IsBST(node) {
          GraftRight(node, sub.value);
          AddAboveRoot(node, sub.value, c);
        }
      } else {
        LessTotal(c.name, d.name);
        return Failure(InsertFailed(c.name));
      }
  }

  /** Replacing the left subtree by a search tree whose names stay below the root keeps the order. */
  lemma GraftLeft(node: Tree, sub: Tree)
    requires node.Node? && IsBST(node) && IsBST(sub)
    requires forall k :: k in Contents(sub) ==> k in Contents(node.left) || Less(k, node.data.name)
    ensures IsBST(Node(sub, node.data, node.right))
  {
  }

  /** Replacing the right subtree by a search tree whose names stay above the root keeps the order. */
  lemma GraftRight(node: Tree, sub: Tree)
    requires node.Node? && IsBST(node) && IsBST(sub)
    requires forall k :: k in Contents(sub) ==> k in Contents(node.right) || Less(node.data.name, k)
    ensures IsBST(Node(node.left, node.data, sub))
  {
  }

  /** Filing a record below the root on the left files it in the whole tree. */
  lemma AddBelowRoot(node: Tree, sub: Tree, c: Character)
    requires node.Node? && IsBST(node) && Less(c.name, node.data.name)
    requires Contents(sub) == Contents(node.left)[c.name := c]
    ensures Contents(Node(sub, node.data, node.right)) == Contents(node)[c.name := c]
  {
    BelowRoot(node, c.name);
    LessAsymmetric(c.name, node.data.name);
    RootUnique(node);
    var have, want := Contents(Node(sub, node.data, node.right)), Contents(node)[c.name := c];
    assert have.Keys == want.Keys;
    forall k | k in have
      ensures have[k] == want[k]
    {
      if k != node.data.name && k != c.name && k !in Contents(node.right) {
        assert k in Contents(node.left);
      }
    }
  }

  /** Filing a record above the root on the right files it in the whole tree. */
  lemma AddAboveRoot(node: Tree, sub: Tree, c: Character)
    requires node.Node? && IsBST(node) && Less(node.data.name, c.name)
    requires Contents(sub) == Contents(node.right)[c.name := c]
    ensures Contents(Node(node.left, node.data, sub)) == Contents(node)[c.name := c]
  {
    AboveRoot(node, c.name);
    LessAsymmetric(node.data.name, c.name);
    RootUnique(node);
    var have, want := Contents(Node(node.left, node.data, sub)), Contents(node)[c.name := c];
    assert have.Keys == want.Keys;
    forall k | k in have
      ensures have[k] == want[k]
    {
      if k != node.data.name && k != c.name && k in Contents(node.right) {
        assert k in Contents(sub);
      }
    }
  }

  /** `findMin(node)`: follow left links while there is one. */
  method FindMin(node: Tree) returns (m: Tree)
    ensures node.Leaf? ==> m.Leaf?
    ensures node.Node? ==> m.Node? && m.left.Leaf? && m.data == Leftmost(node)
    ensures node.Node? && IsBST(node) ==>
      && m.data.name in Contents(node) && Contents(node)[m.data.name] == m.data
      && forall k :: k in Contents(node) && k != m.data.name ==> Less(m.data.name, k)
  {
    m := node;
    while m.Node? && m.left.Node?
      invariant node.Leaf? ==> m.Leaf?
      invariant node.Node? ==> m.Node? && Leftmost(m) == Leftmost(node)
      decreases m
    {
      m := m.left;
    }
    if node.Node? && IsBST(node) {
      LeftmostIsMinimum(node);
    }
  }

  /** `remove(node, name)`: the three-case deletion, replacing a node with two
      children by its in-order successor, which is then removed from the right. */
  method RemoveNode(node: Tree, name: string) returns (r: Tree)
    ensures name !in Contents(node) ==> r == node
    ensures IsBST(node) ==> IsBST(r) && Contents(r) == Contents(node) - {name}
    ensures node.Node? && node.data.name == name && node.left.Leaf? ==> r == node.right
    ensures node.Node? && node.data.name == name && node.left.Node? && node.right.Leaf? ==> r == node.left
    ensures node.Node? && node.data.name == name && node.left.Node? && node.right.Node? ==>
      && r.Node? && r.left == node.left && r.data == Leftmost(node.right)
      && (IsBST(node) ==> Contents(r.right) == Contents(node.right) - {Leftmost(node.right).name})
    decreases node
  {
    if node.Leaf? {
      return Leaf;
    }
    var c := node.data;
    LessIrreflexive(c.name);
    if Less(name, c.name) {
      var l := RemoveNode(node.left, name);
      r := Node(l, c, node.right);
      if IsBST(node) {
        GraftLeft(node, l);
        DropBelowRoot(node, l, name);
      }
    } else if Less(c.name, name) {
      var rt := RemoveNode(node.right, name);
      r := Node(node.left, c, rt);
      if IsBST(node) {
        GraftRight(node, rt);
        DropAboveRoot(node, rt, name);
      }
    } else {
      LessTotal(name, c.name);
      if node.left.Leaf? && node.right.Leaf? {
        r := Leaf;
      } else if node.left.Leaf? {
        r := node.right;
        if IsBST(node) {
          RootUnique(node);
          assert Contents(r) == Contents(node) - {name};
        }
      } else if node.right.Leaf? {
        r := node.left;
        if IsBST(node) {
          RootUnique(node);
          assert Contents(r) == Contents(node) - {name};
        }
      } else {
        var minRight := FindMin(node.right);
        var rt := RemoveNode(node.right, minRight.data.name);
        r := Node(node.left, minRight.data, rt);
        if IsBST(node) {
          RemoveSuccessorKeepsOrder(node, rt);
        }
      }
    }
  }

  /** Dropping a name below the root on the left drops it from the whole tree. */
  lemma DropBelowRoot(node: Tree, sub: Tree, name: string)
    requires node.Node? && IsBST(node) && Less(name, node.data.name)
    requires Contents(sub) == Contents(node.left) - {name}
    ensures Contents(Node(sub, node.data, node.right)) == Contents(node) - {name}
  {
    BelowRoot(node, name);
    LessAsymmetric(name, node.data.name);
    var have, want := Contents(Node(sub, node.data, node.right)), Contents(node) - {name};
    assert have.Keys == want.Keys;
    forall k | k in have
      ensures have[k] == want[k]
    {
      if k != node.data.name && k !in Contents(node.right) {
        assert k in Contents(sub);
      }
    }
  }

  /** Dropping a name above the root on the right drops it from the whole tree. */
  lemma DropAboveRoot(node: Tree, sub: Tree, name: string)
    requires node.Node? && IsBST(node) && Less(node.data.name, name)
    requires Contents(sub) == Contents(node.right) - {name}
    ensures Contents(Node(node.left, node.data, sub)) == Contents(node) - {name}
  {
    AboveRoot(node, name);
    LessAsymmetric(node.data.name, name);
    var have, want := Contents(Node(node.left, node.data, sub)), Contents(node) - {name};
    assert have.Keys == want.Keys;
    forall k | k in have
      ensures have[k] == want[k]
    {
      if k != node.data.name && k in Contents(node.right) {
        assert k in Contents(sub);
      }
    }
  }

  /** The two-children case of `remove` keeps the order and drops exactly the root's name. */
  lemma RemoveSuccessorKeepsOrder(node: Tree, rt: Tree)
    requires node.Node? && node.right.Node? && IsBST(node)
    requires IsBST(rt) && Contents(rt) == Contents(node.right) - {Leftmost(node.right).name}
    ensures IsBST(Node(node.left, Leftmost(node.right), rt))
    ensures Contents(Node(node.left, Leftmost(node.right), rt)) == Contents(node) - {node.data.name}
  {
    SuccessorOrder(node, rt);
    SuccessorContents(node, rt);
  }

  /** The successor sits between the left subtree and what is left of the right one. */
  lemma SuccessorOrder(node: Tree, rt: Tree)
    requires node.Node? && node.right.Node? && IsBST(node)
    requires IsBST(rt) && Contents(rt) == Contents(node.right) - {Leftmost(node.right).name}
    ensures IsBST(Node(node.left, Leftmost(node.right), rt))
  {
    var m := Leftmost(node.right);
    LeftmostIsMinimum(node.right);
    assert Less(node.data.name, m.name);
    forall k | k in Contents(node.left)
      ensures Less(k, m.name)
    {
      LessTransitive(k, node.data.name, m.name);
    }
  }

  /** The successor's record replaces the root's and leaves the right subtree. */
  lemma SuccessorContents(node: Tree, rt: Tree)
    requires node.Node? && node.right.Node? && IsBST(node)
    requires Contents(rt) == Contents(node.right) - {Leftmost(node.right).name}
    ensures Contents(Node(node.left, Leftmost(node.right), rt)) == Contents(node) - {node.data.name}
  {
    var m := Leftmost(node.right);
    LeftmostIsMinimum(node.right);
    RootUnique(node);
    var have, want := Contents(Node(node.left, m, rt)), Contents(node) - {node.data.name};
    forall k | k in Contents(node.left)
      ensures k !in Contents(node.right)
    {
      BelowRoot(node, k);
    }
    assert have.Keys == want.Keys;
    forall k | k in have
      ensures have[k] == want[k]
    {
      if k != m.name && k !in Contents(rt) {
        assert k in Contents(node.left);
      }
    }
  }

  /** `destroy(node)`: post-order teardown; the records freed, in the order freed. */
  method DestroyNode(node: Tree) returns (freed: seq<Character>)
    ensures multiset(freed) == multiset(InOrder(node))
    ensures node.Node? ==> freed != [] && freed[|freed| - 1] == node.data
  {
    if node.Leaf? {
      return [];
    }
    var fromLeft := DestroyNode(node.left);
    var fromRight := DestroyNode(node.right);
    freed := fromLeft + fromRight + [node.data];
  }

  /** The effect of `node->data = updated` on the node `search` finds:
      the same descent as `SearchNode`, replacing that node's record. */
  function SetData(t: Tree, name: string, c: Character): (r: Tree)
    ensures Shape(r) == Shape(t)
    ensures name !in Contents(t) ==> r == t
    ensures IsBST(t) && c.name == name && name in Contents(t) ==>
      IsBST(r) && Contents(r) == Contents(t)[name := c]
  {
    match t
    case Leaf => Leaf
    case Node(l, d, rt) =>
      if name == d.name then
        RootUnique(t);
        Node(l, c, rt)
      else if Less(name, d.name) then
        BelowRoot(t, name);
        var sub := SetData(l, name, c);
        SetBelowRoot(t, sub, c);
        Node(sub, d, rt)
      else
        LessTotal(name, d.name);
        AboveRoot(t, name);
        var sub := SetData(rt, name, c);
        SetAboveRoot(t, sub, c);
        Node(l, d, sub)
  }

  /** Overwriting a record below the root on the left overwrites it in the whole tree. */
  lemma SetBelowRoot(t: Tree, sub: Tree, c: Character)
    ensures (t.Node? && IsBST(t) && Less(c.name, t.data.name) && IsBST(sub)
        && Contents(sub) == Contents(t.left)[c.name := c]) ==>
      && IsBST(Node(sub, t.data, t.right))
      && Contents(Node(sub, t.data, t.right)) == Contents(t)[c.name := c]
  {
    if t.Node? && IsBST(t) && Less(c.name, t.data.name) && IsBST(sub)
        && Contents(sub) == Contents(t.left)[c.name := c] {
      GraftLeft(t, sub);
      AddBelowRoot(t, sub, c);
    }
  }

  /** Overwriting a record above the root on the right overwrites it in the whole tree. */
  lemma SetAboveRoot(t: Tree, sub: Tree, c: Character)
    ensures (t.Node? && IsBST(t) && Less(t.data.name, c.name) && IsBST(sub)
        && Contents(sub) == Contents(t.right)[c.name := c]) ==>
      && IsBST(Node(t.left, t.data, sub))
      && Contents(Node(t.left, t.data, sub)) == Contents(t)[c.name := c]
  {
    if t.Node? && IsBST(t) && Less(t.data.name, c.name) && IsBST(sub)
        && Contents(sub) == Contents(t.right)[c.name := c] {
      GraftRight(t, sub);
      AddAboveRoot(t, sub, c);
    }
  }

  /** Writing a record with a different name through `update` can break the
      order, since `update` does not reposition the node: `b` is still
      stored, but `search` for it now goes left from `z` and misses it. */
  lemma UpdateRenameBreaksOrder(a: Character, b: Character, z: Character)
    requires a.name == "a" && b.name == "b" && z.name == "z"
    ensures IsBST(Node(Leaf, a, Node(Leaf, b, Leaf)))
    ensures !IsBST(SetData(Node(Leaf, a, Node(Leaf, b, Leaf)), "a", z))
    ensures "b" in Contents(SetData(Node(Leaf, a, Node(Leaf, b, Leaf)), "a", z))
    ensures SearchNode(SetData(Node(Leaf, a, Node(Leaf, b, Leaf)), "a", z), "b") == None
    ensures SearchNode(SetData(Node(Leaf, a, Node(Leaf, b, Leaf)), "a", z), "z") == Some(z)
  {
    assert Less("a", "b");
    assert Less("b", "z");
    LessAsymmetric("b", "z");
  }

  // ---------------------------------------------------------------------
  // The public interface
  // ---------------------------------------------------------------------

  /** `CharacterBST`: owns the root of the tree. */
  class CharacterBST {
    var root: Tree

    ghost predicate Valid()
      reads this
    {
      IsBST(root)
    }

    /** `CharacterBST()`: the empty tree. */
    constructor ()
      ensures Valid() && root == Leaf
    {
      root := Leaf;
    }

    /** `insert(c)`: adds `c`, or throws `InsertFailed` leaving the tree as it was. */
    method Insert(c: Character) returns (outcome: Outcome<BstError>)
      requires Valid()
      modifies this
      ensures Valid()
      ensures c.name in old(Contents(root)) ==> outcome == Fail(InsertFailed(c.name)) && root == old(root)
      ensures c.name !in old(Contents(root)) ==>
        outcome == Pass && Contents(root) == old(Contents(root))[c.name := c]
    {
      var r := InsertNode(root, c);
      if r.Failure? {
        return Fail(r.error);
      }
      root := r.value;
      outcome := Pass;
    }

    /** `search(name)`: the record filed under `name`, or `None` for `nullptr`. */
    method Search(name: string) returns (found: Option<Character>)
      requires Valid()
      ensures found.Some? <==> name in Contents(root)
      ensures found.Some? ==> found.value == Contents(root)[name] && found.value.name == name
    {
      found := SearchNode(root, name);
    }

    /** `update(name, updated)`: overwrites the record in place, or throws
        `UpdateFailed` when `name` is absent. */
    method Update(name: string, updated: Character) returns (outcome: Outcome<BstError>)
      requires Valid() && updated.name == name
      modifies this
      ensures Valid()
      ensures name !in old(Contents(root)) ==> outcome == Fail(UpdateFailed(name)) && root == old(root)
      ensures name in old(Contents(root)) ==>
        && outcome == Pass
        && Shape(root) == old(Shape(root))
        && Contents(root) == old(Contents(root))[name := updated]
    {
      var node := SearchNode(root, name);
      if node.None? {
        return Fail(UpdateFailed(name));
      }
      root := SetData(root, name, updated);
      outcome := Pass;
    }

    /** `remove(name)`: deletes the record, or throws `DeleteFailed` leaving
        the tree as it was when `name` is absent. */
    method Remove(name: string) returns (outcome: Outcome<BstError>)
      requires Valid()
      modifies this
      ensures Valid()
      ensures name !in old(Contents(root)) ==> outcome == Fail(DeleteFailed(name)) && root == old(root)
      ensures name in old(Contents(root)) ==>
        && outcome == Pass
        && Contents(root) == old(Contents(root)) - {name}
        && SearchNode(root, name) == None
    {
      var node := SearchNode(root, name);
      if node.None? {
        return Fail(DeleteFailed(name));
      }
      root := RemoveNode(root, name);
      outcome := Pass;
    }

    /** `~CharacterBST()`: tears the tree down, each record freed exactly once. */
    method Destroy() returns (freed: seq<Character>)
      modifies this
      ensures root == Leaf
      ensures multiset(freed) == multiset(old(InOrder(root)))
    {
      freed := DestroyNode(root);
      root := Leaf;
    }
  }
}
