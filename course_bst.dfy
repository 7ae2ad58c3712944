/**
 * The course catalogue tree (Artifacts/CourseBST.cpp): a binary search tree
 * of `Course` records keyed by `courseNumber`. Unlike the character tree it
 * accepts duplicate keys, sending an equal key to the right, so its order is
 * `left < node <= right`; `find` returns the equal course nearest the root.
 */
module CourseBst {
  import opened StringOrder
  import opened Wrappers

  datatype Course = Course(courseNumber: string, courseTitle: string, prerequisites: seq<string>)

  datatype Tree = Nil | TreeNode(left: Tree, course: Course, right: Tree)

  /** Every course stored, with its multiplicity. */
  function Courses(t: Tree): multiset<Course>
  {
    match t
    case Nil => multiset{}
    case TreeNode(l, c, r) => Courses(l) + multiset{c} + Courses(r)
  }

  /** The course numbers stored. */
  function Keys(t: Tree): set<string>
  {
    match t
    case Nil => {}
    case TreeNode(l, c, r) => Keys(l) + {c.courseNumber} + Keys(r)
  }

  /** The order `insertNode` keeps: left keys below the node's, right keys not below it. */
  ghost predicate IsOrdered(t: Tree)
  {
    match t
    case Nil => true
    case TreeNode(l, c, r) =>
      && IsOrdered(l) && IsOrdered(r)
      && (forall k :: k in Keys(l) ==> Less(k, c.courseNumber))
      && (forall k :: k in Keys(r) ==> !Less(k, c.courseNumber))
  }

  ghost predicate NonDecreasing(s: seq<Course>)
  {
    forall i, j :: 0 <= i < j < |s| ==> !Less(s[j].courseNumber, s[i].courseNumber)
  }

  /** A key is stored iff some stored course carries it. */
  lemma {:induction false} KeysOfCourses(t: Tree, k: string)
    ensures k in Keys(t) <==> (exists c :: c in Courses(t) && c.courseNumber == k)
  {
    match t
    case Nil =>
    case TreeNode(l, c, r) =>
      KeysOfCourses(l, k);
      KeysOfCourses(r, k);
  }

  /** `find(node, courseNumber)`: the course with that number nearest the
      root on the search path, or `None` for `nullptr`. */
  function Find(node: Tree, courseNumber: string): (r: Option<Course>)
    ensures r.Some? ==> r.value.courseNumber == courseNumber && r.value in Courses(node)
    ensures IsOrdered(node) ==> (r.Some? <==> courseNumber in Keys(node))
  {
    match node
    case Nil => None
    case TreeNode(l, c, rt) =>
      if courseNumber == c.courseNumber then Some(c)
      else if Less(courseNumber, c.courseNumber) then Find(l, courseNumber)
      else Find(rt, courseNumber)
  }

  /** What `find(k)` answers after `course` is inserted into a tree where it answered `found`. */
  function FoundAfterInsert(found: Option<Course>, course: Course, k: string): Option<Course>
  {
    if found.Some? then found
    else if k == course.courseNumber then Some(course)
    else None
  }

  /** What `insertNode` promises of the tree `r` it builds from `node`. */
  ghost predicate InsertedInto(r: Tree, node: Tree, course: Course)
  {
    && Courses(r) == Courses(node) + multiset{course}
    && Keys(r) == Keys(node) + {course.courseNumber}
    && (IsOrdered(node) ==> IsOrdered(r))
    && forall k :: Find(r, k) == FoundAfterInsert(Find(node, k), course, k)
  }

  /** `insertNode(node, course)`: a new node where the descent falls off the
      tree, going left on a smaller key and right otherwise, equal keys included. */
  method InsertNode(node: Tree, course: Course) returns (r: Tree)
    ensures Courses(r) == Courses(node) + multiset{course}
    ensures Keys(r) == Keys(node) + {course.courseNumber}
    ensures IsOrdered(node) ==> IsOrdered(r)
    ensures forall k :: Find(r, k) == FoundAfterInsert(Find(node, k), course, k)
  {
    match node
    case Nil =>
      r := TreeNode(Nil, course, Nil);
      LessIrreflexive(course.courseNumber);
    case TreeNode(l, c, rt) =>
      if Less(course.courseNumber, c.courseNumber) {
        var sub := InsertNode(l, course);
        r := TreeNode(sub, c, rt);
        InsertLeft(node, sub, course);
      } else {
        var sub := InsertNode(rt, course);
        r := TreeNode(l, c, sub);
        InsertRight(node, sub, course);
      }
  }

  /** An insertion into the left subtree is an insertion into the whole tree. */
  lemma InsertLeft(node: Tree, sub: Tree, course: Course)
    requires node.TreeNode? && Less(course.courseNumber, node.course.courseNumber)
    requires InsertedInto(sub, node.left, course)
    ensures InsertedInto(TreeNode(sub, node.course, node.right), node, course)
  {
    var r := TreeNode(sub, node.course, node.right);
    forall k
      ensures Find(r, k) == FoundAfterInsert(Find(node, k), course, k)
    {
      // A number whose search goes right is not the inserted course's, which went left.
      assert k != node.course.courseNumber && !Less(k, node.course.courseNumber) ==> k != course.courseNumber;
    }
  }

  /** An insertion into the right subtree is an insertion into the whole tree. */
  lemma InsertRight(node: Tree, sub: Tree, course: Course)
    requires node.TreeNode? && !Less(course.courseNumber, node.course.courseNumber)
    requires InsertedInto(sub, node.right, course)
    ensures InsertedInto(TreeNode(node.left, node.course, sub), node, course)
  {
    var r := TreeNode(node.left, node.course, sub);
    assert Courses(r) == Courses(node) + multiset{course};
    forall k
      ensures Find(r, k) == FoundAfterInsert(Find(node, k), course, k)
    {
      // A number whose search goes left is not the inserted course's, which went right.
      assert k != node.course.courseNumber && Less(k, node.course.courseNumber) ==> k != course.courseNumber;
    }
  }

  /** The visit order of `printInOrder`: left subtree, node, right subtree. */
  function InOrder(t: Tree): (s: seq<Course>)
  {
    match t
    case Nil => []
    case TreeNode(l, c, r) => InOrder(l) + [c] + InOrder(r)
  }

  /** The visit prints every stored course once. */
  lemma {:induction false} InOrderCourses(t: Tree)
    ensures multiset(InOrder(t)) == Courses(t)
  {
    match t
    case Nil =>
    case TreeNode(l, c, r) =>
      InOrderCourses(l);
      InOrderCourses(r);
  }

  /** The visit prints course numbers in non-decreasing order. */
  lemma {:induction false} InOrderNonDecreasing(t: Tree)
    requires IsOrdered(t)
    ensures NonDecreasing(InOrder(t))
  {
    match t
    case Nil =>
    case TreeNode(l, c, r) =>
      InOrderNonDecreasing(l);
      InOrderNonDecreasing(r);
      InOrderKeys(l);
      InOrderKeys(r);
      var s, n := InOrder(t), |InOrder(l)|;
      forall i, j | 0 <= i < j < |s|
        ensures !Less(s[j].courseNumber, s[i].courseNumber)
      {
        if j < n {
          assert s[i] == InOrder(l)[i] && s[j] == InOrder(l)[j];
        } else if i > n {
          assert s[i] == InOrder(r)[i - n - 1] && s[j] == InOrder(r)[j - n - 1];
        } else if i == n {
          assert s[j] == InOrder(r)[j - n - 1];
        } else if j == n {
          assert s[i] == InOrder(l)[i];
          LessAsymmetric(s[i].courseNumber, c.courseNumber);
        } else {
          assert s[i] == InOrder(l)[i] && s[j] == InOrder(r)[j - n - 1];
          if Less(s[j].courseNumber, s[i].courseNumber) {
            LessTransitive(s[j].courseNumber, s[i].courseNumber, c.courseNumber);
          }
        }
      }
  }

  /** Every printed course number is a stored key. */
  lemma {:induction false} InOrderKeys(t: Tree)
    ensures forall i :: 0 <= i < |InOrder(t)| ==> InOrder(t)[i].courseNumber in Keys(t)
  {
    match t
    case Nil =>
    case TreeNode(l, c, r) =>
      InOrderKeys(l);
      InOrderKeys(r);
      var s, n := InOrder(t), |InOrder(l)|;
      forall i | 0 <= i < |s|
        ensures s[i].courseNumber in Keys(t)
      {
        if i < n {
          assert s[i] == InOrder(l)[i];
        } else if i > n {
          assert s[i] == InOrder(r)[i - n - 1];
        }
      }
  }

  /** `CourseBST`: owns the root of the catalogue tree. */
  class CourseBST {
    var root: Tree

    ghost predicate Valid()
      reads this
    {
      IsOrdered(root)
    }

    /** `CourseBST()`: the empty catalogue. */
    constructor ()
      ensures Valid() && root == Nil
    {
      root := Nil;
    }

    /** `insert(course)`: always succeeds; a course whose number is already
        stored is kept, but `find` goes on returning the earlier one. */
    method Insert(course: Course)
      requires Valid()
      modifies this
      ensures Valid()
      ensures Courses(root) == old(Courses(root)) + multiset{course}
      ensures forall k :: Find(root, k) == FoundAfterInsert(Find(old(root), k), course, k)
    {
      root := InsertNode(root, course);
    }

    /** `findCourse(courseNumber)`. */
    method FindCourse(courseNumber: string) returns (found: Option<Course>)
      requires Valid()
      ensures found.Some? <==> courseNumber in Keys(root)
      ensures found.Some? ==> found.value.courseNumber == courseNumber && found.value in Courses(root)
      ensures found == Find(root, courseNumber)
    {
      found := Find(root, courseNumber);
    }

    /** `printAllCourses()`: the courses in the order they are printed. */
    method PrintAllCourses() returns (visited: seq<Course>)
      requires Valid()
      ensures visited == InOrder(root)
      ensures multiset(visited) == Courses(root)
      ensures NonDecreasing(visited)
    {
      visited := InOrder(root);
      InOrderCourses(root);
      InOrderNonDecreasing(root);
    }
  }
}
