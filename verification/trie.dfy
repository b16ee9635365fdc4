/** `paths_to_structure` of src/s3.rs: object-store keys are cut at `/` and
    threaded into a tree of `Node`s (the record of src/structure.rs), one
    child per distinct name under each node. */
module S3Trie {
  import opened Common

  /** `Node`: `children` stays absent (`None`) until something is inserted
      below the node. */
  datatype Node = Node(name: string, path: string, children: ChildList)

  /** The `Option<Vec<Node>>` of a node's `children`. */
  datatype ChildList = Absent | Present(nodes: seq<Node>)

  /** The node `paths_to_structure` starts from. */
  const Root: Node := Node("", "", Absent)

  function Kids(n: Node): seq<Node> {
    if n.children.Present? then n.children.nodes else []
  }

  function ChildPosition(kids: seq<Node>, part: string): Option<nat> {
    Position(kids, (c: Node) => c.name == part)
  }

  /** Names are unique among siblings, and every child's path is its
      parent's path, a `/`, and its own name. */
  predicate WellFormed(n: Node)
    decreases n
  {
    match n.children
    case Absent => true
    case Present(cs) =>
      (forall i, j :: 0 <= i < j < |cs| ==> cs[i].name != cs[j].name)
      && forall i :: 0 <= i < |cs| ==> cs[i].path == n.path + "/" + cs[i].name && WellFormed(cs[i])
  }

  lemma ChildOfWellFormed(n: Node, i: nat)
    requires WellFormed(n) && i < |Kids(n)|
    ensures WellFormed(Kids(n)[i])
    ensures Kids(n)[i].path == n.path + "/" + Kids(n)[i].name
  {
  }

  // -------------------------------------------------------- insertion

  /** The child named `part`, appending a new leaf when there is none; the
      new leaf's path is the parent's path, `/`, and `part`. */
  function FindOrCreateChild(n: Node, part: string): (r: (seq<Node>, nat))
    ensures r.1 < |r.0|
  {
    var kids := Kids(n);
    match ChildPosition(kids, part)
    case Some(i) => (kids, i)
    case None => (kids + [Node(part, n.path + "/" + part, Absent)], |kids|)
  }

  /** The inner loop of `paths_to_structure` with the cursor at `n`: give
      `n` a child list if it has none, move to the child named after the
      next part (creating it if needed) and go on with the remaining parts. */
  function InsertParts(n: Node, parts: seq<string>): (r: Node)
    ensures r.name == n.name && r.path == n.path
    ensures |parts| > 0 ==> r.children.Present?
    decreases |parts|
  {
    if |parts| == 0 then n
    else
      var (cs, i) := FindOrCreateChild(n, parts[0]);
      n.(children := Present(cs[i := InsertParts(cs[i], parts[1..])]))
  }

  /** The tree after inserting every key, in order, into `Root`. */
  function BuildTree(keys: seq<string>): Node {
    if |keys| == 0 then Root
    else InsertParts(BuildTree(keys[..|keys| - 1]), Split(keys[|keys| - 1], '/'))
  }

  /** `paths_to_structure`: the outer loop over the keys. */
  method PathsToStructure(keys: seq<string>) returns (root: Node)
    ensures root == BuildTree(keys)
    ensures root.name == "" && root.path == ""
    ensures WellFormed(root)
    ensures forall k :: 0 <= k < |keys| ==> Lookup(root, Split(keys[k], '/')).Some?
  {
    root := Root;
    for i := 0 to |keys|
      invariant root == BuildTree(keys[..i])
    {
      root := InsertParts(root, Split(keys[i], '/'));
      assert keys[..i + 1][..i] == keys[..i];
    }
    assert keys[..|keys|] == keys;
    BuildTreeWellFormed(keys);
    forall k | 0 <= k < |keys| ensures Lookup(root, Split(keys[k], '/')).Some? {
      assert IsPrefix(Split(keys[k], '/'), Split(keys[k], '/'));
      ChainPresent(keys, Split(keys[k], '/'));
    }
  }

  // ------------------------------------------------------------ lookup

  /** The node reached from `n` by following children named `q[0]`, `q[1]`, ... */
  function Lookup(n: Node, q: seq<string>): Option<Node>
    decreases |q|
  {
    if |q| == 0 then Some(n)
    else match ChildPosition(Kids(n), q[0])
      case None => None
      case Some(i) => Lookup(Kids(n)[i], q[1..])
  }

  predicate IsPrefix(q: seq<string>, p: seq<string>) {
    |q| <= |p| && p[..|q|] == q
  }

  predicate IsStrictPrefix(q: seq<string>, p: seq<string>) {
    |q| < |p| && p[..|q|] == q
  }

  /** `/q[0]/q[1]/...`: the suffix a node's path gains along `q`. */
  function SlashJoin(q: seq<string>): string {
    if |q| == 0 then "" else "/" + q[0] + SlashJoin(q[1..])
  }

  // -------------------------------------------------------- properties

  lemma SameNamesSamePosition(a: seq<Node>, b: seq<Node>, part: string)
    requires |a| == |b|
    requires forall k :: 0 <= k < |a| ==> a[k].name == b[k].name
    ensures ChildPosition(a, part) == ChildPosition(b, part)
  {
    if |a| > 0 && a[0].name != part {
      SameNamesSamePosition(a[1..], b[1..], part);
    }
  }

  lemma FindOrCreateChildFacts(n: Node, part: string)
    ensures var (cs, i) := FindOrCreateChild(n, part);
      && cs[i].name == part
      && |Kids(n)| <= |cs| <= |Kids(n)| + 1 && cs[..|Kids(n)|] == Kids(n)
      && (i < |Kids(n)| <==> ChildPosition(Kids(n), part).Some?)
      && (i >= |Kids(n)| ==> cs[i] == Node(part, n.path + "/" + part, Absent))
      && ChildPosition(cs, part) == Some(i)
  {
    var (cs, i) := FindOrCreateChild(n, part);
    assert cs[..|Kids(n)|] == Kids(n);
    if i == |Kids(n)| {
      FirstMatchUnique(cs, (c: Node) => c.name == part, i);
    }
  }

  /** Inserting keeps sibling names unique and paths consistent. */
  lemma {:induction false} InsertWellFormed(n: Node, parts: seq<string>)
    requires WellFormed(n)
    ensures WellFormed(InsertParts(n, parts))
    decreases |parts|
  {
    if |parts| > 0 {
      var (cs, i) := FindOrCreateChild(n, parts[0]);
      FindOrCreateChildFacts(n, parts[0]);
      var c := cs[i];
      assert WellFormed(c) && c.path == n.path + "/" + c.name;
      InsertWellFormed(c, parts[1..]);
      var cs' := cs[i := InsertParts(c, parts[1..])];
      var r := InsertParts(n, parts);
      assert r.children.nodes == cs';
      assert forall k :: 0 <= k < |cs'| ==> cs'[k].name == cs[k].name && cs'[k].path == cs[k].path;
      forall k | 0 <= k < |cs'| ensures WellFormed(cs'[k]) {
        if k != i {
          assert cs'[k] == cs[k];
        }
      }
    }
  }

  /** Existing children keep their place, name and path; at most one new
      child is appended, at the end. */
  lemma InsertKeepsChildOrder(n: Node, parts: seq<string>)
    ensures var r := InsertParts(n, parts);
      && |Kids(n)| <= |Kids(r)| <= |Kids(n)| + 1
      && forall k :: 0 <= k < |Kids(n)| ==> Kids(r)[k].name == Kids(n)[k].name && Kids(r)[k].path == Kids(n)[k].path
  {
    if |parts| > 0 {
      FindOrCreateChildFacts(n, parts[0]);
      var (cs, i) := FindOrCreateChild(n, parts[0]);
      forall k | 0 <= k < |Kids(n)| ensures cs[k] == Kids(n)[k] {
        assert cs[..|Kids(n)|][k] == cs[k];
      }
    }
  }

  /** `b`'s children start with `a`'s children, same names and paths in the
      same places. */
  predicate KidsKept(a: Node, b: Node) {
    |Kids(a)| <= |Kids(b)|
    && forall k :: 0 <= k < |Kids(a)| ==> Kids(b)[k].name == Kids(a)[k].name && Kids(b)[k].path == Kids(a)[k].path
  }

  /** The same holds at every node already in the tree, not only at the
      cursor's start: below any existing chain `q`, the node is still there,
      keeps its children in order and gains at most one, at the end. */
  lemma {:induction false} InsertKeepsChildOrderBelow(n: Node, p: seq<string>, q: seq<string>)
    requires Lookup(n, q).Some?
    ensures var before := Lookup(n, q).value;
      var after := Lookup(InsertParts(n, p), q);
      && after.Some?
      && KidsKept(before, after.value)
      && |Kids(after.value)| <= |Kids(before)| + 1
    decreases |p|
  {
    if |q| == 0 {
      InsertKeepsChildOrder(n, p);
    } else if |p| > 0 {
      if q[0] == p[0] {
        var (cs, i) := FindOrCreateChild(n, p[0]);
        InsertStep(n, p, q);
        ChildBefore(n, p[0], q);
        InsertKeepsChildOrderBelow(cs[i], p[1..], q[1..]);
      } else {
        InsertElsewhere(n, p, q);
      }
    }
  }

  lemma KidsKeptTransitive(a: Node, b: Node, c: Node)
    requires KidsKept(a, b) && KidsKept(b, c)
    ensures KidsKept(a, c)
  {
  }

  /** Across the whole outer loop, a node present after the first `m` keys
      keeps its children, in the order they were first created, to the end:
      siblings stay listed in the order their names first occur. */
  lemma {:induction false} BuildTreeKeepsChildOrder(keys: seq<string>, m: nat, q: seq<string>)
    requires m <= |keys| && Lookup(BuildTree(keys[..m]), q).Some?
    ensures var after := Lookup(BuildTree(keys), q);
      after.Some? && KidsKept(Lookup(BuildTree(keys[..m]), q).value, after.value)
    decreases |keys|
  {
    if m == |keys| {
      assert keys[..m] == keys;
    } else {
      var n := |keys| - 1;
      assert keys[..n][..m] == keys[..m];
      var t1 := BuildTree(keys[..n]);
      var t2 := BuildTree(keys);
      assert t2 == InsertParts(t1, Split(keys[n], '/'));
      BuildTreeKeepsChildOrder(keys[..n], m, q);
      InsertKeepsChildOrderBelow(t1, Split(keys[n], '/'), q);
      KidsKeptTransitive(Lookup(BuildTree(keys[..m]), q).value, Lookup(t1, q).value, Lookup(t2, q).value);
    }
  }

  /** After inserting `p`, a name chain `q` leads to a node exactly when it
      did before or `q` is a prefix of `p`; that node has a child list
      exactly when it had one before or `p` continues past `q`; a node that
      existed keeps its name and path. */
  lemma InsertLookup(n: Node, p: seq<string>, q: seq<string>)
    ensures var after := Lookup(InsertParts(n, p), q);
      var before := Lookup(n, q);
      && (after.Some? <==> before.Some? || IsPrefix(q, p))
      && (after.Some? ==>
            (after.value.children.Present? <==> (before.Some? && before.value.children.Present?) || IsStrictPrefix(q, p)))
      && (before.Some? ==> after.Some? && after.value.name == before.value.name && after.value.path == before.value.path)
  {
    InsertLookupFound(n, p, q);
    InsertLookupChildren(n, p, q);
  }

  /** Inserting `p` adds exactly the chains that are prefixes of `p`, and
      keeps the name and path of every node that was there. */
  predicate FoundAfterInsert(n: Node, p: seq<string>, q: seq<string>) {
    var after := Lookup(InsertParts(n, p), q);
    var before := Lookup(n, q);
    && (after.Some? <==> before.Some? || IsPrefix(q, p))
    && (before.Some? ==> after.Some? && after.value.name == before.value.name && after.value.path == before.value.path)
  }

  /** After inserting `p`, the node at `q` has a child list exactly when it
      had one or `p` goes on past `q`. */
  predicate ChildrenAfterInsert(n: Node, p: seq<string>, q: seq<string>) {
    var after := Lookup(InsertParts(n, p), q);
    var before := Lookup(n, q);
    after.Some? ==>
      (after.value.children.Present? <==> (before.Some? && before.value.children.Present?) || IsStrictPrefix(q, p))
  }

  lemma {:induction false} InsertLookupFound(n: Node, p: seq<string>, q: seq<string>)
    ensures FoundAfterInsert(n, p, q)
    decreases |p|
  {
    if |p| > 0 && |q| > 0 {
      if q[0] == p[0] {
        var (cs, i) := FindOrCreateChild(n, p[0]);
        InsertLookupFound(cs[i], p[1..], q[1..]);
        FoundStep(n, p, q);
      } else {
        InsertElsewhere(n, p, q);
      }
    }
  }

  lemma FoundStep(n: Node, p: seq<string>, q: seq<string>)
    requires |p| > 0 && |q| > 0 && q[0] == p[0]
    requires var (cs, i) := FindOrCreateChild(n, p[0]); FoundAfterInsert(cs[i], p[1..], q[1..])
    ensures FoundAfterInsert(n, p, q)
  {
    var (cs, i) := FindOrCreateChild(n, p[0]);
    InsertStep(n, p, q);
    ChildBefore(n, p[0], q);
    if i == |Kids(n)| && |q| > 1 {
      assert Kids(cs[i]) == [];
    }
    assert IsPrefix(q, p) <==> IsPrefix(q[1..], p[1..]);
  }

  lemma {:induction false} InsertLookupChildren(n: Node, p: seq<string>, q: seq<string>)
    ensures ChildrenAfterInsert(n, p, q)
    decreases |p|
  {
    if |p| > 0 && |q| > 0 {
      if q[0] == p[0] {
        var (cs, i) := FindOrCreateChild(n, p[0]);
        InsertLookupChildren(cs[i], p[1..], q[1..]);
        ChildrenStep(n, p, q);
      } else {
        InsertElsewhere(n, p, q);
      }
    }
  }

  lemma ChildrenStep(n: Node, p: seq<string>, q: seq<string>)
    requires |p| > 0 && |q| > 0 && q[0] == p[0]
    requires var (cs, i) := FindOrCreateChild(n, p[0]); ChildrenAfterInsert(cs[i], p[1..], q[1..])
    ensures ChildrenAfterInsert(n, p, q)
  {
    var (cs, i) := FindOrCreateChild(n, p[0]);
    InsertStep(n, p, q);
    ChildBefore(n, p[0], q);
    if i == |Kids(n)| && |q| > 1 {
      assert Kids(cs[i]) == [];
    }
    assert IsStrictPrefix(q, p) <==> IsStrictPrefix(q[1..], p[1..]);
  }

  /** Along `p`'s first name, looking up in the updated node is looking up
      in the updated child. */
  lemma InsertStep(n: Node, p: seq<string>, q: seq<string>)
    requires |p| > 0 && |q| > 0 && q[0] == p[0]
    ensures var (cs, i) := FindOrCreateChild(n, p[0]);
      Lookup(InsertParts(n, p), q) == Lookup(InsertParts(cs[i], p[1..]), q[1..])
  {
    var (cs, i) := FindOrCreateChild(n, p[0]);
    FindOrCreateChildFacts(n, p[0]);
    var cs' := cs[i := InsertParts(cs[i], p[1..])];
    var r := InsertParts(n, p);
    assert Kids(r) == cs';
    SameNamesSamePosition(cs', cs, q[0]);
    assert ChildPosition(Kids(r), q[0]) == Some(i);
  }

  /** Before the update the child named `p[0]` either existed, and the
      lookup went through it, or it is the fresh leaf and the lookup failed. */
  lemma ChildBefore(n: Node, part: string, q: seq<string>)
    requires |q| > 0 && q[0] == part
    ensures var (cs, i) := FindOrCreateChild(n, part);
      && (i < |Kids(n)| ==> Lookup(n, q) == Lookup(cs[i], q[1..]))
      && (i >= |Kids(n)| ==> Lookup(n, q) == None && cs[i].children == Absent)
  {
    FindOrCreateChildFacts(n, part);
  }

  /** Inserting `p` leaves the chains that leave `p` at the first step alone. */
  lemma InsertElsewhere(n: Node, p: seq<string>, q: seq<string>)
    requires |p| > 0 && |q| > 0 && q[0] != p[0]
    ensures Lookup(InsertParts(n, p), q) == Lookup(n, q) && !IsPrefix(q, p)
  {
    var (cs, i) := FindOrCreateChild(n, p[0]);
    FindOrCreateChildFacts(n, p[0]);
    var r := InsertParts(n, p);
    var cs' := cs[i := InsertParts(cs[i], p[1..])];
    assert Kids(r) == cs';
    SameNamesSamePosition(cs', cs, q[0]);
    match ChildPosition(cs, q[0])
    case None =>
      assert forall j :: 0 <= j < |Kids(n)| ==> Kids(n)[j] == cs[j];
    case Some(k) =>
      assert k != i;
      assert k < |Kids(n)|;
      assert cs'[k] == cs[k] == Kids(n)[k];
      FirstMatchUnique(Kids(n), (c: Node) => c.name == q[0], k);
  }

  /** Inserting a key whose chain is already present changes nothing. */
  lemma {:induction false} InsertPresentIsIdentity(n: Node, p: seq<string>)
    requires Lookup(n, p).Some?
    ensures InsertParts(n, p) == n
    decreases |p|
  {
    if |p| > 0 {
      var i := ChildPosition(Kids(n), p[0]).value;
      var (cs, i') := FindOrCreateChild(n, p[0]);
      assert i' == i && cs == Kids(n);
      InsertPresentIsIdentity(cs[i], p[1..]);
      assert cs[i := cs[i]] == cs;
      assert n.children == Present(cs);
    }
  }

  /** In a well-formed tree the node reached by `q` is named `q`'s last
      element and its path is the start's path followed by `/q[0]/q[1]...`. */
  lemma LookupStep(n: Node, q: seq<string>)
    requires |q| > 0 && Lookup(n, q).Some?
    ensures ChildPosition(Kids(n), q[0]).Some?
    ensures var c := Kids(n)[ChildPosition(Kids(n), q[0]).value];
      c.name == q[0] && Lookup(n, q) == Lookup(c, q[1..])
  {
  }

  lemma PathStep(parent: string, child: string, name: string, tail: string, reached: string)
    requires child == parent + "/" + name && reached == child + tail
    ensures reached == parent + ("/" + name + tail)
  {
  }

  /** In a well-formed tree the node reached by `q` has the start's path
      followed by `/q[0]/q[1]...` as its path. */
  lemma {:induction false} LookupPath(n: Node, q: seq<string>)
    requires WellFormed(n) && Lookup(n, q).Some?
    ensures Lookup(n, q).value.path == n.path + SlashJoin(q)
    decreases |q|
  {
    if |q| > 0 {
      LookupStep(n, q);
      var i := ChildPosition(Kids(n), q[0]).value;
      var c := Kids(n)[i];
      ChildOfWellFormed(n, i);
      LookupPath(c, q[1..]);
      PathStep(n.path, c.path, q[0], SlashJoin(q[1..]), Lookup(n, q).value.path);
    }
  }

  /** The node reached by a non-empty chain is named after its last element. */
  lemma {:induction false} LookupName(n: Node, q: seq<string>)
    requires |q| > 0 && Lookup(n, q).Some?
    ensures Lookup(n, q).value.name == q[|q| - 1]
    decreases |q|
  {
    LookupStep(n, q);
    var c := Kids(n)[ChildPosition(Kids(n), q[0]).value];
    if |q| > 1 {
      LookupName(c, q[1..]);
      assert q[1..][|q[1..]| - 1] == q[|q| - 1];
    }
  }

  // ---------------------------------------------------- whole listings

  lemma {:induction false} BuildTreeWellFormed(keys: seq<string>)
    ensures WellFormed(BuildTree(keys))
    ensures BuildTree(keys).name == "" && BuildTree(keys).path == ""
  {
    if |keys| > 0 {
      BuildTreeWellFormed(keys[..|keys| - 1]);
      InsertWellFormed(BuildTree(keys[..|keys| - 1]), Split(keys[|keys| - 1], '/'));
    }
  }

  /** Some key's pieces start with `q`. */
  predicate SomeKeyStartsWith(keys: seq<string>, q: seq<string>) {
    exists k :: 0 <= k < |keys| && IsPrefix(q, Split(keys[k], '/'))
  }

  /** Some key's pieces start with `q` and go on after it. */
  predicate SomeKeyContinues(keys: seq<string>, q: seq<string>) {
    exists k :: 0 <= k < |keys| && IsStrictPrefix(q, Split(keys[k], '/'))
  }

  /** The tree built from a listing has a node at the end of the name chain
      `q` exactly when `q` is empty or begins some key (so every key's chain
      is there, empty pieces included), and that node has a child list
      exactly when some key goes on past `q`. */
  lemma {:induction false} BuildTreeLookup(keys: seq<string>, q: seq<string>)
    ensures var found := Lookup(BuildTree(keys), q);
      && (found.Some? <==> |q| == 0 || SomeKeyStartsWith(keys, q))
      && (found.Some? ==> (found.value.children.Present? <==> SomeKeyContinues(keys, q)))
  {
    if |keys| == 0 {
      if |q| > 0 {
        assert Kids(Root) == [];
      }
    } else {
      var n := |keys| - 1;
      var before := keys[..n];
      var parts := Split(keys[n], '/');
      BuildTreeLookup(before, q);
      InsertLookup(BuildTree(before), parts, q);
      SomeKeySnoc(keys, q);
    }
  }

  lemma SomeKeySnoc(keys: seq<string>, q: seq<string>)
    requires |keys| > 0
    ensures var n := |keys| - 1;
      && (SomeKeyStartsWith(keys, q) <==> SomeKeyStartsWith(keys[..n], q) || IsPrefix(q, Split(keys[n], '/')))
      && (SomeKeyContinues(keys, q) <==> SomeKeyContinues(keys[..n], q) || IsStrictPrefix(q, Split(keys[n], '/')))
  {
    StartsWithSnoc(keys, q);
    ContinuesSnoc(keys, q);
  }

  lemma StartsWithSnoc(keys: seq<string>, q: seq<string>)
    requires |keys| > 0
    ensures var n := |keys| - 1;
      SomeKeyStartsWith(keys, q) <==> SomeKeyStartsWith(keys[..n], q) || IsPrefix(q, Split(keys[n], '/'))
  {
    var n := |keys| - 1;
    var before := keys[..n];
    if SomeKeyStartsWith(keys, q) {
      var k :| 0 <= k < |keys| && IsPrefix(q, Split(keys[k], '/'));
      if k < n {
        assert before[k] == keys[k];
      }
    }
    if SomeKeyStartsWith(before, q) {
      var k :| 0 <= k < n && IsPrefix(q, Split(before[k], '/'));
      assert before[k] == keys[k];
    }
  }

  lemma ContinuesSnoc(keys: seq<string>, q: seq<string>)
    requires |keys| > 0
    ensures var n := |keys| - 1;
      SomeKeyContinues(keys, q) <==> SomeKeyContinues(keys[..n], q) || IsStrictPrefix(q, Split(keys[n], '/'))
  {
    var n := |keys| - 1;
    var before := keys[..n];
    if SomeKeyContinues(keys, q) {
      var k :| 0 <= k < |keys| && IsStrictPrefix(q, Split(keys[k], '/'));
      if k < n {
        assert before[k] == keys[k];
      }
    }
    if SomeKeyContinues(before, q) {
      var k :| 0 <= k < n && IsStrictPrefix(q, Split(before[k], '/'));
      assert before[k] == keys[k];
    }
  }

  /** The chain of any key's pieces leads to a node. */
  lemma ChainPresent(keys: seq<string>, q: seq<string>)
    requires SomeKeyStartsWith(keys, q)
    ensures Lookup(BuildTree(keys), q).Some?
  {
    BuildTreeLookup(keys, q);
  }

  /** Every key's chain ends at a node whose path is the key's pieces, each
      behind a `/`. */
  lemma KeyPaths(keys: seq<string>, k: nat)
    requires k < |keys|
    ensures Lookup(BuildTree(keys), Split(keys[k], '/')).Some?
    ensures Lookup(BuildTree(keys), Split(keys[k], '/')).value.path == SlashJoin(Split(keys[k], '/'))
  {
    var t := BuildTree(keys);
    var parts := Split(keys[k], '/');
    assert IsPrefix(parts, Split(keys[k], '/'));
    ChainPresent(keys, parts);
    BuildTreeWellFormed(keys);
    LookupPath(t, parts);
    assert t.path + SlashJoin(parts) == SlashJoin(parts);
  }
}
