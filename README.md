# Two string-keyed binary search trees and a course-line splitter

This project models, in Dafny, the data-structure core of two small C++
programs and proves properties of it:

- **`CharacterBST`**: the character database's ordered map from a
  character's `name` to its `Character` record. It is an unbalanced
  binary search tree with strict order, and `insert` rejects a duplicate
  name by throwing. It also supports `search`, an in-place `update`,
  the three-case `remove` that uses the in-order successor, and the
  post-order `destroy`. `CharacterDatabase::getAllCharacters` takes an
  in-order snapshot of it, and the loading loop of `loadFromDB` inserts
  rows and skips duplicates.
- **`CourseBST`**: the course catalogue, a second unbalanced binary
  search tree keyed by `courseNumber`. Its `insertNode` accepts equal
  keys and sends them to the right. So its order is
  `left < node <= right`, and `find` answers with the equal course
  nearest the root. It also covers the `printInOrder` visit order.
- **The per-line split of `loadCoursesFromFile`**: each line is broken
  into comma-separated fields with repeated `std::getline(ss, token, ',')`.
  A line with at least two fields becomes a course and is inserted into
  the catalogue; any other line is skipped.

Trees are Dafny datatypes (`Leaf | Node(left, data, right)`). The C++
helpers that rebuild a link (`node->left = insert(node->left, c)`) are
recursive methods that return the new subtree. `findMin` is a `while`
loop. The read-only recursions (`search`, `find`, the in-order walk) are
functions. Each C++ class that owns a root is a Dafny class with a
`root` field, and its public methods reassign that field. A thrown
`std::runtime_error` becomes a `Fail` outcome that names the error.
`nullptr` results become `None`.

String keys compare with `StringOrder.Less`. It models `std::string`'s
`operator<`: character-by-character comparison by code, with a proper
prefix ordered first. It is proved irreflexive, transitive, total and
asymmetric.

The abstract views are:

- `Contents(t)`: a map from name to record for the character tree;
- `Courses(t)`: a multiset of courses for the catalogue;
- `Keys(t)`: the set of course numbers for the catalogue;
- `InOrder(t)`: the in-order sequence of either tree.

## Model

| member | source | states |
|---|---|---|
| StringOrder.LessIrreflexive | Capstone/CharacterDatabase/CharacterDatabase/Character.cpp:34-40 | no name is below itself, so the insert descent's "neither below nor above" case means equal names |
| StringOrder.LessTransitive | Capstone/CharacterDatabase/CharacterDatabase/Character.cpp:34-40 | the string order used by both trees is transitive |
| StringOrder.LessTotal | Capstone/CharacterDatabase/CharacterDatabase/Character.cpp:34-45 | two different names are always ordered one way or the other, so the duplicate branch is reached only for equal names |
| StringOrder.LessAsymmetric | Capstone/CharacterDatabase/CharacterDatabase/Character.cpp:34-40 | a name below another is not above it, and the two differ |
| CharacterBst.ContentsKeyed | Capstone/CharacterDatabase/CharacterDatabase/Character.cpp:30-47 | every record in the tree is filed under its own name |
| CharacterBst.LeftmostIsMinimum | Capstone/CharacterDatabase/CharacterDatabase/Character.cpp:78-81 | in a search tree, the leftmost record is stored under its name, and its name is below every other stored name |
| CharacterBst.InOrderRecords | Capstone/CharacterDatabase/CharacterDatabase/Character.h:115-125 | every record in the in-order sequence is the one stored under its name, and every stored record appears in it |
| CharacterBst.InOrderAscending | Capstone/CharacterDatabase/CharacterDatabase/Character.h:117-121 | for a search tree, the in-order names are strictly ascending |
| CharacterBst.InOrderLength | Capstone/CharacterDatabase/CharacterDatabase/Character.h:115-125 | the in-order sequence has one entry per node |
| CharacterBst.SearchNode | Capstone/CharacterDatabase/CharacterDatabase/Character.cpp:51-60 | a found record carries the queried name; on a search tree the result is the stored record if the name is present and `None` otherwise, including on the empty tree |
| CharacterBst.InsertNode | Capstone/CharacterDatabase/CharacterDatabase/Character.cpp:30-47 | failure is `InsertFailed(name)` and happens exactly when the name is already present; success keeps strict order and adds exactly that record to the contents |
| CharacterBst.FindMin | Capstone/CharacterDatabase/CharacterDatabase/Character.cpp:78-81 | an empty subtree gives an empty result; otherwise the result is a node with no left child that holds the leftmost record, which in a search tree has the smallest name |
| CharacterBst.RemoveNode | Capstone/CharacterDatabase/CharacterDatabase/Character.cpp:84-117 | an absent name leaves the tree as it is; on a search tree the result is a search tree whose contents lose exactly that name; a node with one child is replaced by that child; a node with two children keeps its left subtree, takes the in-order successor's record, and loses the successor from its right subtree |
| CharacterBst.RemoveSuccessorKeepsOrder | Capstone/CharacterDatabase/CharacterDatabase/Character.cpp:109-114 | moving the in-order successor into the node keeps strict order and drops exactly the node's old name |
| CharacterBst.DestroyNode | Capstone/CharacterDatabase/CharacterDatabase/Character.cpp:120-126 | post-order teardown frees every record exactly once, and a node's own record last |
| CharacterBst.SetData | Capstone/CharacterDatabase/CharacterDatabase/Character.cpp:151-157 | overwriting the record found for a name leaves the tree shape unchanged and leaves the tree as it is when the name is absent; with an unchanged name it keeps strict order and replaces only that record |
| CharacterBst.UpdateRenameBreaksOrder | Capstone/CharacterDatabase/CharacterDatabase/Character.cpp:151-157 | overwriting the root `a` of the search tree `a`, `b` with a record named `z` breaks the order: `b` is still stored but a search for it finds nothing, while a search for `z` finds it at the root |
| CharacterBst.CharacterBST.constructor | Capstone/CharacterDatabase/CharacterDatabase/Character.h:81 | a new tree is empty |
| CharacterBst.CharacterBST.Insert | Capstone/CharacterDatabase/CharacterDatabase/Character.cpp:133 | a present name gives `InsertFailed` and an unchanged root; an absent name is added with its record, and order is kept |
| CharacterBst.CharacterBST.Search | Capstone/CharacterDatabase/CharacterDatabase/Character.cpp:136-139 | the result is found exactly when the name is present, and is then the record stored under it |
| CharacterBst.CharacterBST.Update | Capstone/CharacterDatabase/CharacterDatabase/Character.cpp:151-157 | an absent name gives `UpdateFailed` and an unchanged root; otherwise only that record is replaced, and the shape and order are kept |
| CharacterBst.CharacterBST.Remove | Capstone/CharacterDatabase/CharacterDatabase/Character.cpp:160-166 | an absent name gives `DeleteFailed` and an unchanged root; otherwise exactly that name is removed, order is kept, and a later search for it finds nothing |
| CharacterBst.CharacterBST.Destroy | Capstone/CharacterDatabase/CharacterDatabase/Character.cpp:25 | the destructor frees every stored record exactly once and leaves an empty tree |
| CharacterDb.Traverse | Capstone/CharacterDatabase/CharacterDatabase/Character.h:117-122 | the recursive `traverse` appends the subtree's in-order sequence to what was collected so far |
| CharacterDb.CharacterDatabase.constructor | Capstone/CharacterDatabase/CharacterDatabase/Character.h:97-101 | a new database owns a fresh, empty character tree, as the implicit constructor default-constructs `bst` |
| CharacterDb.CharacterDatabase.GetAllCharacters | Capstone/CharacterDatabase/CharacterDatabase/Character.h:115-125 | the snapshot is the in-order sequence, one entry per node, with strictly ascending names; it holds exactly the stored records; the tree is not modified |
| CharacterDb.LoadedKeys | Capstone/CharacterDatabase/CharacterDatabase/Character.cpp:209-237 | after the rows are loaded, the names present are the old names plus the rows' names |
| CharacterDb.LoadedKeepsPresent | Capstone/CharacterDatabase/CharacterDatabase/Character.cpp:231-236 | a record already present survives a load unchanged, because duplicates are skipped |
| CharacterDb.LoadedFirstWins | Capstone/CharacterDatabase/CharacterDatabase/Character.cpp:231-236 | for a new name, the first row carrying it is the one stored |
| CharacterDb.CharacterDatabase.LoadRows | Capstone/CharacterDatabase/CharacterDatabase/Character.cpp:209-237 | inserting the rows one by one, skipping duplicates, gives the contents `Loaded` describes and keeps order; every skipped row is a row whose name ends up present |
| CourseBst.KeysOfCourses | Artifacts/CourseBST.cpp:53-66 | a course number is a key of the tree exactly when some stored course carries it |
| CourseBst.Find | Artifacts/CourseBST.cpp:87-93 | a found course carries the queried number and is stored in the tree; on an ordered tree a course is found exactly when its number is a key, and `None` on the empty tree |
| CourseBst.InsertNode | Artifacts/CourseBST.cpp:53-66 | the stored multiset grows by exactly the inserted course; the key set grows by its number; the order `left < node <= right` is kept; `find` keeps every earlier answer and answers the new course only for a number that was absent |
| CourseBst.InsertLeft | Artifacts/CourseBST.cpp:59-61 | a smaller number inserted into the left subtree is inserted into the whole tree, with `find` unchanged for a number that was already present |
| CourseBst.InsertRight | Artifacts/CourseBST.cpp:62-65 | an equal or larger number inserted into the right subtree is inserted into the whole tree, with `find` unchanged for a number that was already present |
| CourseBst.InOrder | Artifacts/CourseBST.cpp:73-78 | definition: the visit order of `printInOrder`, the left subtree's courses, then the node's, then the right subtree's; its properties are the three lemmas below |
| CourseBst.InOrderCourses | Artifacts/CourseBST.cpp:73-78 | the in-order visit prints every stored course exactly once |
| CourseBst.InOrderNonDecreasing | Artifacts/CourseBST.cpp:73-78 | on an ordered tree the visit prints course numbers in non-decreasing order |
| CourseBst.InOrderKeys | Artifacts/CourseBST.cpp:73-78 | every printed course number is a key of the tree |
| CourseBst.CourseBST.constructor | Artifacts/CourseBST.cpp:96 | a new catalogue is empty |
| CourseBst.CourseBST.Insert | Artifacts/CourseBST.cpp:103-105 | insertion always succeeds and keeps the order; the multiset of courses grows by exactly the course; `find` answers as before except for a number that was absent |
| CourseBst.CourseBST.FindCourse | Artifacts/CourseBST.cpp:120-122 | the answer is found exactly when the number is a key, and is then a stored course with that number |
| CourseBst.CourseBST.PrintAllCourses | Artifacts/CourseBST.cpp:110-112 | the printed courses are the tree's in-order visit (left subtree, node, right subtree), and they are exactly the stored ones, in non-decreasing number order |
| CourseCsv.Fields | Artifacts/CourseBST.cpp:146-156 | definition: the tokens repeated `std::getline(ss, token, ',')` extracts, so an empty line has none, an empty field between commas is kept, and a final comma adds no empty field; `GetField` and `ReadRemaining` are proved against it and `FieldsOfJoin`/`JoinOfFields` give its round trip |
| CourseCsv.CourseOfFields | Artifacts/CourseBST.cpp:146-156 | definition: fewer than two fields give no course; otherwise the first field is the number, the second the title and the rest the prerequisites in order; `ParseLine` is proved equal to it and `CourseRoundTrip` inverts it |
| CourseCsv.FieldEndAtComma | Artifacts/CourseBST.cpp:146 | a field that stops before the end of the line stops at a comma |
| CourseCsv.FieldEndPastNoComma | Artifacts/CourseBST.cpp:146 | no character inside a field is a comma |
| CourseCsv.FieldEndAt | Artifacts/CourseBST.cpp:146 | a field ends at the first comma, wherever that is |
| CourseCsv.FieldsOfJoin | Artifacts/CourseBST.cpp:146-156 | splitting a comma-joined line gives back its fields, provided no field holds a comma and the last field is not empty |
| CourseCsv.JoinOfFields | Artifacts/CourseBST.cpp:146-156 | joining a line's fields with commas gives back the line, less a final comma |
| CourseCsv.CourseRoundTrip | Artifacts/CourseBST.cpp:146-156 | a course whose fields hold no comma and whose last field (the title when there are no prerequisites, otherwise the last prerequisite) is not empty, written as a line, is read back as itself; with an empty last field the final comma adds no field, so `std::getline` drops it |
| CourseCsv.GetField | Artifacts/CourseBST.cpp:146 | one `getline` on the rest of the line fails exactly when nothing is left; otherwise it extracts the first remaining field, which holds no comma, and consumes the comma after it |
| CourseCsv.ReadRemaining | Artifacts/CourseBST.cpp:154-156 | the prerequisite loop collects every remaining field of the line, in order |
| CourseCsv.ParseLine | Artifacts/CourseBST.cpp:142-156 | the first field is the number, the second the title, and the rest the prerequisites in order; a line with fewer than two fields is skipped |
| CourseCsv.FirstWithKeyIsFirst | Artifacts/CourseBST.cpp:59-65 | the first course of a sequence with a number is found exactly when one exists, and no earlier course carries that number |
| CourseCsv.FirstWithKeySnoc | Artifacts/CourseBST.cpp:59-65 | appending a course changes the first match only for a number that had none |
| CourseCsv.LoadStep | Artifacts/CourseBST.cpp:159 | inserting one more parsed course extends the load by that course |
| CourseCsv.LoadCourses | Artifacts/CourseBST.cpp:141-160 | every line with two or more fields is inserted, in file order; `find` answers each number with the course that was already stored, or else with the first loaded course that carries it |

## Findings

| source | as written | input that shows it | evidently intended | confidence | as-written member | corrected member |
|---|---|---|---|---|---|---|
| Capstone/CharacterDatabase/CharacterDatabase/Character.cpp:151-157 | `update` overwrites the found node's record with any record, including one with a different name, and never moves the node | a tree holding `a` with right child `b`, then `update("a", z)` for a record named `z`: `z` sits at the root above `b`, so a later `search("b")` goes left from `z` and misses `b`, which is still stored | the replacement record keeps the name it is filed under, which is what the only caller does | not executed | CharacterBst.UpdateRenameBreaksOrder | CharacterBst.CharacterBST.Update |

## Left out

- SQLite access in `CharacterDatabase::loadFromDB` (opening the database, the `CREATE TABLE`, preparing and stepping the query, error codes) is foreign library I/O. Only its insertion loop is modelled, with the rows given as a sequence.
- Opening and reading the file in `loadCoursesFromFile` is I/O. The lines are given as a sequence, and the final "loaded" message is not modelled.
- Console output (`inorder`, `displayAll`, `printInOrder`'s printing, `printCourseInfo`, the "updated"/"removed" messages, the duplicate warning on `std::cerr`) is I/O. Only the visit order and the values shown are modelled.
- The HTML report export, the interactive menus, the `main` programs and the Python CRUD script are outside the core.
- The float statistics of `Character` (bullet damage, bullet speed, regeneration, resistances, speeds) are not modelled. They are carried but never compared, and Dafny has no `float`.
- The `CharacterDatabase` one-line wrappers (`addCharacter`, `displayCharacters`, `findCharacter`, `updateCharacter`, `deleteCharacter`) only forward to the tree's operations, which are modelled.
- CharacterBst.CharacterBST.Search: returns a copy of the record, not a pointer into the node, so writing through the returned pointer is not modelled. `update` is the modelled way to change a record.
- CourseBst.CourseBST.FindCourse: returns the course as a value, not a pointer into the tree.
- CharacterBst.CharacterBST.Update: requires `updated.name == name`. The source accepts any record, and the rename case is stated separately by `UpdateRenameBreaksOrder`.
- CharacterBst.CharacterBST.Destroy: `delete` and the reclamation of memory are not modelled. The destructor is a method that reports the records in the order they are freed and leaves an empty root.
- Node allocation and pointer identity are not modelled. A tree is a value, so aliasing between nodes cannot arise.
- The "data loaded" gate of the interactive programs belongs to the menus and is left out.
