/**
 * `CharacterDatabase` (Capstone/CharacterDatabase/CharacterDatabase/Character.h):
 * owns a `CharacterBST`, takes ordered snapshots of it for display and export,
 * and fills it from database rows, skipping rows whose name is already present.
 */
module CharacterDb {
  import opened CharacterBst

  /** The map after inserting `rows` one by one into `m`, a row whose name is
      already present being skipped (the `try`/`catch` around `bst.insert`). */
  function Loaded(m: map<string, Character>, rows: seq<Character>): map<string, Character>
    decreases |rows|
  {
    if rows == [] then m
    else Loaded(if rows[0].name in m then m else m[rows[0].name := rows[0]], rows[1..])
  }

  /** The names a load adds are exactly the rows' names. */
  lemma {:induction false} LoadedKeys(m: map<string, Character>, rows: seq<Character>)
    ensures Loaded(m, rows).Keys == m.Keys + set i | 0 <= i < |rows| :: rows[i].name
    decreases |rows|
  {
    if rows != [] {
      var m' := if rows[0].name in m then m else m[rows[0].name := rows[0]];
      LoadedKeys(m', rows[1..]);
      var rest := set i | 0 <= i < |rows[1..]| :: rows[1..][i].name;
      var all := set i | 0 <= i < |rows| :: rows[i].name;
      assert all == {rows[0].name} + rest by {
        forall x | x in all
          ensures x in {rows[0].name} + rest
        {
          var i :| 0 <= i < |rows| && rows[i].name == x;
          if i > 0 {
            assert rows[1..][i - 1].name == x;
          }
        }
      }
    }
  }

  /** A record already present survives a load unchanged. */
  lemma {:induction false} LoadedKeepsPresent(m: map<string, Character>, rows: seq<Character>, k: string)
    requires k in m
    ensures k in Loaded(m, rows) && Loaded(m, rows)[k] == m[k]
    decreases |rows|
  {
    if rows != [] {
      var m' := if rows[0].name in m then m else m[rows[0].name := rows[0]];
      LoadedKeepsPresent(m', rows[1..], k);
    }
  }

  /** For a new name, the first row carrying it wins; later duplicates are skipped. */
  lemma {:induction false} LoadedFirstWins(m: map<string, Character>, rows: seq<Character>, i: nat)
    requires i < |rows| && rows[i].name !in m
    requires forall j :: 0 <= j < i ==> rows[j].name != rows[i].name
    ensures rows[i].name in Loaded(m, rows) && Loaded(m, rows)[rows[i].name] == rows[i]
    decreases i
  {
    LoadedKeys(m, rows);
    var m' := if rows[0].name in m then m else m[rows[0].name := rows[0]];
    if i == 0 {
      LoadedKeepsPresent(m', rows[1..], rows[0].name);
    } else {
      assert rows[1..][i - 1] == rows[i];
      LoadedFirstWins(m', rows[1..], i - 1);
    }
  }

  /** The recursive `traverse` lambda of `getAllCharacters`: appends the
      subtree's records to `all` in in-order. */
  method Traverse(node: Tree, all: seq<Character>) returns (all': seq<Character>)
    ensures all' == all + InOrder(node)
  {
    if node.Leaf? {
      return all;
    }
    all' := Traverse(node.left, all);
    all' := all' + [node.data];
    all' := Traverse(node.right, all');
  }

  class CharacterDatabase {
    const bst: CharacterBST

    ghost predicate Valid()
      reads this, bst
    {
      bst.Valid()
    }

    constructor ()
      ensures Valid() && fresh(bst) && bst.root == Leaf
    {
      bst := new CharacterBST();
    }

    /** `getAllCharacters()`: every record, once, in ascending name order;
        the tree is left untouched. */
    method GetAllCharacters() returns (all: seq<Character>)
      requires Valid()
      ensures all == InOrder(bst.root)
      ensures |all| == Size(bst.root)
      ensures StrictlyAscending(all)
      ensures forall i :: 0 <= i < |all| ==>
        all[i].name in Contents(bst.root) && Contents(bst.root)[all[i].name] == all[i]
      ensures forall k :: k in Contents(bst.root) ==> Contents(bst.root)[k] in all
    {
      all := Traverse(bst.root, []);
      InOrderLength(bst.root);
      InOrderAscending(bst.root);
      InOrderRecords(bst.root);
    }

    /** The insertion loop of `loadFromDB`, the rows given as a sequence:
        each row is inserted, and a duplicate name is reported and skipped. */
    method LoadRows(rows: seq<Character>) returns (skipped: seq<Character>)
      requires Valid()
      modifies bst
      ensures Valid()
      ensures Contents(bst.root) == Loaded(old(Contents(bst.root)), rows)
      ensures forall c :: c in skipped ==> c in rows && c.name in Contents(bst.root)
    {
      skipped := [];
      for i := 0 to |rows|
        invariant Valid()
        invariant Loaded(Contents(bst.root), rows[i..]) == Loaded(old(Contents(bst.root)), rows)
        invariant forall c :: c in skipped ==> c in rows[..i] && c.name in Contents(bst.root)
      {
        var outcome := bst.Insert(rows[i]);
        if outcome.Fail? {
          skipped := skipped + [rows[i]];
        }
        assert rows[i..][0] == rows[i] && rows[i..][1..] == rows[i + 1..];
        assert rows[..i + 1] == rows[..i] + [rows[i]];
      }
    }
  }
}
