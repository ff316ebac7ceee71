/**
 * The folder tree of TreeView.tsx. Every folder of the board store is a node whose key is
 * its path (`team/project/board`); the widget looks nodes up by key, deletes and adds
 * them, loads a folder's children when it is expanded, and on start expands the path
 * named by the `board` query parameter one prefix at a time.
 *
 * The widget changes nodes in place (`push` into `children`, assignments to `key`, `id`
 * and `label`) on the object `getSelectedNodeByKey` returns, which is the first node in
 * pre-order with that key. Here nodes are values, and such an update is the tree with
 * that first node replaced (`UpdateFirst`).
 */
module TreeView {
  import opened Wrappers
  import opened Paths

  /**
   * A node of the tree (the fields of PrimeReact's `TreeNode` the widget uses; `caption`
   * is its `label`). Every node the widget builds has a `children` array.
   */
  datatype TreeNode = TreeNode(id: string, key: string, caption: string, leaf: bool, children: seq<TreeNode>)

  /** `createNode(folderName, folderKey)`: a folder node with no children yet. */
  function CreateNode(folderName: string, folderKey: string): (n: TreeNode)
    ensures n.key == folderKey && n.id == folderKey && n.caption == folderName
    ensures !n.leaf && n.children == []
  {
    TreeNode(folderKey, folderKey, folderName, false, [])
  }

  // ---------------------------------------------------------------------------------------
  // Reference definitions: the nodes of a forest

  /** Some node at any depth has key `k`. */
  predicate HasKey(ts: seq<TreeNode>, k: string) {
    ts != [] && (ts[0].key == k || HasKey(ts[0].children, k) || HasKey(ts[1..], k))
  }

  /** The node `n` occurs at some depth. */
  predicate Contains(ts: seq<TreeNode>, n: TreeNode) {
    ts != [] && (ts[0] == n || Contains(ts[0].children, n) || Contains(ts[1..], n))
  }

  /** All nodes in pre-order: each node, then its descendants, then its later siblings. */
  function Flatten(ts: seq<TreeNode>): seq<TreeNode> {
    if ts == [] then [] else [ts[0]] + Flatten(ts[0].children) + Flatten(ts[1..])
  }

  /** Linear search: the first node of `s` with key `k`. */
  function FirstWithKey(s: seq<TreeNode>, k: string): (r: Option<TreeNode>)
    ensures r.None? <==> forall i :: 0 <= i < |s| ==> s[i].key != k
    ensures r.Some? ==> r.value in s && r.value.key == k
  {
    if s == [] then None
    else if s[0].key == k then Some(s[0])
    else FirstWithKey(s[1..], k)
  }

  /** The search through a concatenation looks in the second part only when the first has no match. */
  lemma {:induction false} FirstWithKeyAppend(a: seq<TreeNode>, b: seq<TreeNode>, k: string)
    ensures FirstWithKey(a + b, k) == if FirstWithKey(a, k).Some? then FirstWithKey(a, k) else FirstWithKey(b, k)
  {
    if a != [] {
      assert (a + b)[1..] == a[1..] + b;
      FirstWithKeyAppend(a[1..], b, k);
    } else {
      assert a + b == b;
    }
  }

  /** A key occurs in the forest exactly when it occurs in its pre-order listing. */
  lemma {:induction false} HasKeyFlatten(ts: seq<TreeNode>, k: string)
    ensures HasKey(ts, k) <==> exists i :: 0 <= i < |Flatten(ts)| && Flatten(ts)[i].key == k
  {
    if ts != [] {
      HasKeyFlatten(ts[0].children, k);
      HasKeyFlatten(ts[1..], k);
      var a, b := Flatten(ts[0].children), Flatten(ts[1..]);
      var f := Flatten(ts);
      assert f == [ts[0]] + a + b;
      if HasKey(ts, k) {
        if ts[0].key == k {
          assert f[0].key == k;
        } else if HasKey(ts[0].children, k) {
          var i :| 0 <= i < |a| && a[i].key == k;
          assert f[1 + i] == a[i];
        } else {
          var i :| 0 <= i < |b| && b[i].key == k;
          assert f[1 + |a| + i] == b[i];
        }
      }
      if exists i :: 0 <= i < |f| && f[i].key == k {
        var i :| 0 <= i < |f| && f[i].key == k;
        if i == 0 {
        } else if i <= |a| {
          assert a[i - 1] == f[i];
        } else {
          assert b[i - 1 - |a|] == f[i];
        }
      }
    }
  }

  // ---------------------------------------------------------------------------------------
  // getSelectedNodeByKey

  /**
   * `getSelectedNodeByKey(nodeKey, tree)`: visit the nodes in order, returning a node with
   * the key, else the first match among its children, else go on to the next node.
   */
  function GetSelectedNodeByKey(nodeKey: string, tree: seq<TreeNode>): (r: Option<TreeNode>)
    ensures r.Some? <==> HasKey(tree, nodeKey)
    ensures r.Some? ==> r.value.key == nodeKey && Contains(tree, r.value)
  {
    if tree == [] then None
    else if tree[0].key == nodeKey then Some(tree[0])
    else
      var found := GetSelectedNodeByKey(nodeKey, tree[0].children);
      if found.Some? then found else GetSelectedNodeByKey(nodeKey, tree[1..])
  }

  /** The node found is the first node with the key in pre-order. */
  lemma {:induction false} LookupIsFirstInPreorder(nodeKey: string, tree: seq<TreeNode>)
    ensures GetSelectedNodeByKey(nodeKey, tree) == FirstWithKey(Flatten(tree), nodeKey)
  {
    if tree != [] {
      LookupIsFirstInPreorder(nodeKey, tree[0].children);
      LookupIsFirstInPreorder(nodeKey, tree[1..]);
      var a, b := Flatten(tree[0].children), Flatten(tree[1..]);
      assert Flatten(tree) == [tree[0]] + (a + b);
      FirstWithKeyAppend([tree[0]], a + b, nodeKey);
      FirstWithKeyAppend(a, b, nodeKey);
      assert FirstWithKey([tree[0]], nodeKey) == if tree[0].key == nodeKey then Some(tree[0]) else None;
    }
  }

  // ---------------------------------------------------------------------------------------
  // deleteNodeByKey

  /**
   * `deleteNodeByKey(nodeKey, tree)`: every node has its children filtered recursively,
   * then the nodes with the key are dropped.
   */
  function DeleteNodeByKey(nodeKey: string, tree: seq<TreeNode>): (r: seq<TreeNode>)
    ensures !HasKey(r, nodeKey)
    ensures |r| <= |tree|
  {
    if tree == [] then []
    else
      var rest := DeleteNodeByKey(nodeKey, tree[1..]);
      if tree[0].key == nodeKey then rest
      else [tree[0].(children := DeleteNodeByKey(nodeKey, tree[0].children))] + rest
  }

  /** `k` belongs to a node reached from the top without passing through a node keyed `avoid`. */
  predicate Unremoved(ts: seq<TreeNode>, avoid: string, k: string) {
    ts != [] && (
      (ts[0].key != avoid && (ts[0].key == k || Unremoved(ts[0].children, avoid, k))) ||
      Unremoved(ts[1..], avoid, k))
  }

  /** The keys left after a deletion are exactly those of nodes outside every removed subtree. */
  lemma {:induction false} DeleteKeepsUnremoved(nodeKey: string, tree: seq<TreeNode>, k: string)
    ensures HasKey(DeleteNodeByKey(nodeKey, tree), k) <==> Unremoved(tree, nodeKey, k)
  {
    if tree != [] {
      DeleteKeepsUnremoved(nodeKey, tree[1..], k);
      DeleteKeepsUnremoved(nodeKey, tree[0].children, k);
      var rest := DeleteNodeByKey(nodeKey, tree[1..]);
      if tree[0].key != nodeKey {
        var r := DeleteNodeByKey(nodeKey, tree);
        assert r[0] == tree[0].(children := DeleteNodeByKey(nodeKey, tree[0].children));
        assert r[1..] == rest;
      }
    }
  }

  /** Deleting a key that no node has changes nothing; hence deleting twice is deleting once. */
  lemma {:induction false} DeleteAbsentIsIdentity(nodeKey: string, tree: seq<TreeNode>)
    requires !HasKey(tree, nodeKey)
    ensures DeleteNodeByKey(nodeKey, tree) == tree
  {
    if tree != [] {
      DeleteAbsentIsIdentity(nodeKey, tree[0].children);
      DeleteAbsentIsIdentity(nodeKey, tree[1..]);
      assert tree == [tree[0].(children := tree[0].children)] + tree[1..];
    }
  }

  /** The top-level survivors keep their relative order: the kept top-level keys, in order. */
  function TopKeys(ts: seq<TreeNode>): (r: seq<string>)
    ensures |r| == |ts| && forall i :: 0 <= i < |ts| ==> r[i] == ts[i].key
  {
    if ts == [] then [] else [ts[0].key] + TopKeys(ts[1..])
  }

  /** The keys of `ks` other than `k`, in order. */
  function Without(ks: seq<string>, k: string): (r: seq<string>)
    ensures k !in r
  {
    if ks == [] then [] else (if ks[0] == k then [] else [ks[0]]) + Without(ks[1..], k)
  }

  /** At the top level a deletion is a filter: the other nodes stay, in their order. */
  lemma {:induction false} DeleteFiltersTopLevel(nodeKey: string, tree: seq<TreeNode>)
    ensures TopKeys(DeleteNodeByKey(nodeKey, tree)) == Without(TopKeys(tree), nodeKey)
  {
    if tree != [] {
      DeleteFiltersTopLevel(nodeKey, tree[1..]);
      assert TopKeys(tree)[1..] == TopKeys(tree[1..]);
      var r := DeleteNodeByKey(nodeKey, tree);
      if tree[0].key != nodeKey {
        assert r[1..] == DeleteNodeByKey(nodeKey, tree[1..]);
        assert TopKeys(r) == [r[0].key] + TopKeys(r[1..]);
      }
    }
  }

  /** `ts.filter(node => node.key !== k)`: the nodes of `ts` not keyed `k`, in their order. */
  function FilterKey(ts: seq<TreeNode>, k: string): (r: seq<TreeNode>)
    ensures |r| <= |ts|
    ensures forall n :: n in r <==> n in ts && n.key != k
  {
    if ts == [] then [] else (if ts[0].key == k then [] else [ts[0]]) + FilterKey(ts[1..], k)
  }

  /** The `map` step of `deleteNodeByKey`: every node's children with the deletion applied. */
  function MapDelete(k: string, ts: seq<TreeNode>): (r: seq<TreeNode>)
    ensures |r| == |ts|
    ensures forall i :: 0 <= i < |ts| ==> r[i].key == ts[i].key && r[i].id == ts[i].id
  {
    seq(|ts|, i requires 0 <= i < |ts| => ts[i].(children := DeleteNodeByKey(k, ts[i].children)))
  }

  /**
   * At every depth a deletion is the source's map-then-filter: each node has the deletion
   * applied to its children, and then the nodes keyed `k` are dropped, the others keeping
   * their order and their fields.
   */
  lemma {:induction false} DeleteIsMapThenFilter(k: string, ts: seq<TreeNode>)
    ensures DeleteNodeByKey(k, ts) == FilterKey(MapDelete(k, ts), k)
  {
    if ts != [] {
      DeleteIsMapThenFilter(k, ts[1..]);
      var m := MapDelete(k, ts);
      assert m[1..] == MapDelete(k, ts[1..]);
      assert m[0] == ts[0].(children := DeleteNodeByKey(k, ts[0].children));
    }
  }

  // ---------------------------------------------------------------------------------------
  // addChildNode

  /** The node test of `addChildNode`: its key is the context-menu key or the given key. */
  predicate Matches(n: TreeNode, selected: Option<string>, given: Option<string>) {
    (selected.Some? && n.key == selected.value) || (given.Some? && n.key == given.value)
  }

  /**
   * `addChildNode(tree, newNode, givenNodeKey)`, with `selectedNodeKey` as `selected`: a
   * matching node gets `newNode` as its last child and `leaf` cleared, and is not descended
   * into; any other node has the function applied to its children, without `givenNodeKey`.
   */
  function AddChildNode(tree: seq<TreeNode>, newNode: TreeNode, selected: Option<string>, given: Option<string>): (r: seq<TreeNode>)
    ensures |r| == |tree|
    ensures forall i :: 0 <= i < |r| ==>
      r[i].key == tree[i].key && r[i].id == tree[i].id && r[i].caption == tree[i].caption
    ensures forall i :: 0 <= i < |r| && Matches(tree[i], selected, given) ==>
      r[i].children == tree[i].children + [newNode] && !r[i].leaf
    ensures forall i :: 0 <= i < |r| && !Matches(tree[i], selected, given) ==>
      r[i].leaf == tree[i].leaf && r[i].children == AddChildNode(tree[i].children, newNode, selected, None)
  {
    seq(|tree|, i requires 0 <= i < |tree| =>
      if Matches(tree[i], selected, given) then tree[i].(children := tree[i].children + [newNode], leaf := false)
      else tree[i].(children := AddChildNode(tree[i].children, newNode, selected, None)))
  }

  /** With neither key set nothing matches, so the tree is returned as it was. */
  lemma {:induction false} AddChildWithoutKeysIsIdentity(tree: seq<TreeNode>, newNode: TreeNode)
    ensures AddChildNode(tree, newNode, None, None) == tree
  {
    if tree != [] {
      AddChildWithoutKeysIsIdentity(tree[0].children, newNode);
      AddChildWithoutKeysIsIdentity(tree[1..], newNode);
      var r := AddChildNode(tree, newNode, None, None);
      assert r[0] == tree[0];
      assert r[1..] == AddChildNode(tree[1..], newNode, None, None);
    }
  }

  /** The given key is honoured at the top level only: below it, a node with that key is left alone. */
  lemma GivenKeyOnlyAtTopLevel(tree: seq<TreeNode>, newNode: TreeNode, given: string, i: nat)
    requires i < |tree| && tree[i].key != given
    ensures AddChildNode(tree, newNode, None, Some(given))[i] == tree[i]
  {
    AddChildWithoutKeysIsIdentity(tree[i].children, newNode);
  }

  /** Adding under a key that occurs somewhere puts the new node in the tree. */
  lemma {:induction false} AddChildPlacesNewNode(tree: seq<TreeNode>, newNode: TreeNode, selected: string, given: Option<string>)
    requires HasKey(tree, selected)
    ensures Contains(AddChildNode(tree, newNode, Some(selected), given), newNode)
  {
    var r := AddChildNode(tree, newNode, Some(selected), given);
    if Matches(tree[0], Some(selected), given) {
      var kids := r[0].children;
      assert kids[|kids| - 1] == newNode;
      ContainsLast(kids, newNode);
    } else if HasKey(tree[0].children, selected) {
      AddChildPlacesNewNode(tree[0].children, newNode, selected, None);
    } else {
      AddChildPlacesNewNode(tree[1..], newNode, selected, given);
      assert r[1..] == AddChildNode(tree[1..], newNode, Some(selected), given);
    }
  }

  /** The last node of a non-empty forest occurs in it. */
  lemma {:induction false} ContainsLast(ts: seq<TreeNode>, n: TreeNode)
    requires ts != [] && ts[|ts| - 1] == n
    ensures Contains(ts, n)
  {
    if |ts| > 1 {
      ContainsLast(ts[1..], n);
    }
  }

  // ---------------------------------------------------------------------------------------
  // In-place updates of the node getSelectedNodeByKey returns

  /** The forest with `f` applied to the first node in pre-order whose key is `k`. */
  function UpdateFirst(ts: seq<TreeNode>, k: string, f: TreeNode -> TreeNode): (r: seq<TreeNode>)
    ensures |r| == |ts|
    ensures !HasKey(ts, k) ==> r == ts
  {
    if ts == [] then []
    else if ts[0].key == k then [f(ts[0])] + ts[1..]
    else if HasKey(ts[0].children, k) then [ts[0].(children := UpdateFirst(ts[0].children, k, f))] + ts[1..]
    else
      assert ts == [ts[0]] + ts[1..];
      [ts[0]] + UpdateFirst(ts[1..], k, f)
  }

  /** The updated node is in the result. */
  lemma {:induction false} UpdateFirstPlacesResult(ts: seq<TreeNode>, k: string, f: TreeNode -> TreeNode)
    requires HasKey(ts, k)
    ensures Contains(UpdateFirst(ts, k, f), f(GetSelectedNodeByKey(k, ts).value))
  {
    var r := UpdateFirst(ts, k, f);
    if ts[0].key != k {
      if HasKey(ts[0].children, k) {
        UpdateFirstPlacesResult(ts[0].children, k, f);
      } else {
        UpdateFirstPlacesResult(ts[1..], k, f);
        assert r[1..] == UpdateFirst(ts[1..], k, f);
      }
    }
  }

  /** When the update keeps the key, looking the key up again finds the updated node. */
  lemma {:induction false} UpdateFirstThenLookup(ts: seq<TreeNode>, k: string, f: TreeNode -> TreeNode)
    requires HasKey(ts, k) && f(GetSelectedNodeByKey(k, ts).value).key == k
    ensures GetSelectedNodeByKey(k, UpdateFirst(ts, k, f)) == Some(f(GetSelectedNodeByKey(k, ts).value))
  {
    var r := UpdateFirst(ts, k, f);
    if ts[0].key != k {
      if HasKey(ts[0].children, k) {
        UpdateFirstThenLookup(ts[0].children, k, f);
      } else {
        UpdateFirstThenLookup(ts[1..], k, f);
        assert r[1..] == UpdateFirst(ts[1..], k, f);
      }
    }
  }

  /**
   * An update that keeps the node's key and every key below it loses no key of the forest.
   */
  lemma {:induction false} UpdateFirstKeepsKeys(ts: seq<TreeNode>, k: string, f: TreeNode -> TreeNode, x: string)
    requires HasKey(ts, k) ==> (var n := GetSelectedNodeByKey(k, ts).value;
      f(n).key == n.key && (HasKey(n.children, x) ==> HasKey(f(n).children, x)))
    requires HasKey(ts, x)
    ensures HasKey(UpdateFirst(ts, k, f), x)
  {
    var r := UpdateFirst(ts, k, f);
    if !HasKey(ts, k) {
    } else if ts[0].key == k {
      assert r[1..] == ts[1..];
    } else if HasKey(ts[0].children, k) {
      if HasKey(ts[0].children, x) {
        UpdateFirstKeepsKeys(ts[0].children, k, f, x);
      }
      assert r[1..] == ts[1..];
    } else {
      assert r[1..] == UpdateFirst(ts[1..], k, f);
      if HasKey(ts[1..], x) {
        UpdateFirstKeepsKeys(ts[1..], k, f, x);
      }
    }
  }

  /** `node.children.push(child)`. */
  function PushChild(child: TreeNode): TreeNode -> TreeNode {
    (n: TreeNode) => n.(children := n.children + [child])
  }

  /** Replacing a node's children array. */
  function SetChildren(children: seq<TreeNode>): TreeNode -> TreeNode {
    (n: TreeNode) => n.(children := children)
  }

  /** The key of a folder created or listed under `parentKey`. */
  function ChildKey(parentKey: string, name: string): string {
    parentKey + "/" + name
  }

  /** A child's key splits back into its parent's key and its own name. */
  lemma ChildKeySplits(parentKey: string, name: string)
    requires '/' !in name
    ensures SplitByLastSlash(ChildKey(parentKey, name)) == (parentKey, name)
  {
    SplitByLastSlashInverse(parentKey, name);
  }

  // ---------------------------------------------------------------------------------------
  // handleNewFolder, renameFolder, deleteFolder

  /**
   * `handleNewFolder()` after the `mkdir` request: the new node, keyed
   * `${selectedNodeKey}/${newFolderName}`, is pushed onto the children of the node the
   * context menu selected. When no node has that key the push throws a `TypeError`.
   */
  function HandleNewFolder(nodes: seq<TreeNode>, selectedNodeKey: string, newFolderName: string): (r: Result<seq<TreeNode>, string>)
    ensures r.Ok? <==> HasKey(nodes, selectedNodeKey)
    ensures r.Ok? ==> r.value == UpdateFirst(nodes, selectedNodeKey,
      PushChild(CreateNode(newFolderName, ChildKey(selectedNodeKey, newFolderName))))
  {
    var newNode := CreateNode(newFolderName, ChildKey(selectedNodeKey, newFolderName));
    var parentNode := GetSelectedNodeByKey(selectedNodeKey, nodes);
    if parentNode.None? then Err("TypeError: parentNode is undefined")
    else Ok(UpdateFirst(nodes, selectedNodeKey, PushChild(newNode)))
  }

  /** After a new folder, its parent is found with the new node as its last child, and no key is lost. */
  lemma NewFolderUnderParent(nodes: seq<TreeNode>, selectedNodeKey: string, newFolderName: string, x: string)
    requires HandleNewFolder(nodes, selectedNodeKey, newFolderName).Ok?
    ensures var parent := GetSelectedNodeByKey(selectedNodeKey, nodes).value;
      var after := HandleNewFolder(nodes, selectedNodeKey, newFolderName).value;
      GetSelectedNodeByKey(selectedNodeKey, after) ==
        Some(parent.(children := parent.children + [CreateNode(newFolderName, ChildKey(selectedNodeKey, newFolderName))]))
    ensures HasKey(nodes, x) ==> HasKey(HandleNewFolder(nodes, selectedNodeKey, newFolderName).value, x)
  {
    var f := PushChild(CreateNode(newFolderName, ChildKey(selectedNodeKey, newFolderName)));
    UpdateFirstThenLookup(nodes, selectedNodeKey, f);
    var parent := GetSelectedNodeByKey(selectedNodeKey, nodes).value;
    if HasKey(nodes, x) {
      if HasKey(parent.children, x) {
        HasKeyAppend(parent.children, [CreateNode(newFolderName, ChildKey(selectedNodeKey, newFolderName))], x);
      }
      UpdateFirstKeepsKeys(nodes, selectedNodeKey, f, x);
    }
  }

  /** A key of a forest is a key of the forest with more nodes appended. */
  lemma {:induction false} HasKeyAppend(a: seq<TreeNode>, b: seq<TreeNode>, x: string)
    requires HasKey(a, x)
    ensures HasKey(a + b, x)
  {
    assert (a + b)[0] == a[0];
    if !(a[0].key == x || HasKey(a[0].children, x)) {
      HasKeyAppend(a[1..], b, x);
      assert (a + b)[1..] == a[1..] + b;
    }
  }

  /**
   * The guard of the Rename menu entry: `key.split('/').length - 1 === 0` refuses the
   * rename, which is exactly a key without a slash (a top-level folder).
   */
  function RenameRefused(key: string): (r: bool)
    ensures r <==> '/' !in key
  {
    |Split(key, '/')| - 1 == 0
  }

  /** `${key.slice(0, key.lastIndexOf("/"))}/${newFolderName}`, the renamed folder's new key. */
  function RenamedKey(key: string, newFolderName: string): (r: string)
    ensures '/' in key ==> r == key[..LastIndexOf(key, '/')] + "/" + newFolderName
    ensures '/' !in key && key != [] ==> r == key[..|key| - 1] + "/" + newFolderName
  {
    Slice(key, 0, LastIndexOf(key, '/')) + "/" + newFolderName
  }

  /** A rename keeps the parent part of the key and replaces the last part with the new name. */
  lemma RenameKeepsParent(key: string, newFolderName: string)
    requires '/' in key && '/' !in newFolderName
    ensures SplitByLastSlash(RenamedKey(key, newFolderName)) == (SplitByLastSlash(key).0, newFolderName)
  {
    SplitByLastSlashInverse(SplitByLastSlash(key).0, newFolderName);
  }

  /** The fields `renameFolder` overwrites on the node it looked up. */
  function Relabel(newUrl: string, newFolderName: string): TreeNode -> TreeNode {
    (n: TreeNode) => n.(key := newUrl, id := newFolderName, caption := newFolderName)
  }

  /**
   * `renameFolder()` on the tree: the node the context menu selected gets the new key,
   * id and label, and keeps its children; the new key comes with the tree. When no node has
   * the key the assignment throws a `TypeError`.
   */
  function RenameInTree(nodes: seq<TreeNode>, selectedNodeKey: string, newFolderName: string): (r: Result<(seq<TreeNode>, string), string>)
    ensures r.Ok? <==> HasKey(nodes, selectedNodeKey)
    ensures r.Ok? ==> r.value.1 == RenamedKey(selectedNodeKey, newFolderName)
    ensures r.Ok? ==> r.value.0 == UpdateFirst(nodes, selectedNodeKey, Relabel(r.value.1, newFolderName))
  {
    var givenNode := GetSelectedNodeByKey(selectedNodeKey, nodes);
    var newUrl := RenamedKey(selectedNodeKey, newFolderName);
    if givenNode.None? then Err("TypeError: givenNode is undefined")
    else Ok((UpdateFirst(nodes, selectedNodeKey, Relabel(newUrl, newFolderName)), newUrl))
  }

  /**
   * After a rename the tree holds the node under its new key, with the children it had:
   * their keys still start with the old path.
   */
  lemma RenamedNodeInTree(nodes: seq<TreeNode>, selectedNodeKey: string, newFolderName: string)
    requires RenameInTree(nodes, selectedNodeKey, newFolderName).Ok?
    ensures var before := GetSelectedNodeByKey(selectedNodeKey, nodes).value;
      var (after, newUrl) := RenameInTree(nodes, selectedNodeKey, newFolderName).value;
      Contains(after, TreeNode(newFolderName, newUrl, newFolderName, before.leaf, before.children))
  {
    var newUrl := RenamedKey(selectedNodeKey, newFolderName);
    UpdateFirstPlacesResult(nodes, selectedNodeKey, Relabel(newUrl, newFolderName));
  }

  /** `deleteFolder(nodeKey)` on the tree: nothing for a null or empty key, otherwise the deletion. */
  function DeleteFolder(nodes: seq<TreeNode>, nodeKey: Option<string>): (r: seq<TreeNode>)
    ensures nodeKey.None? || nodeKey.value == "" ==> r == nodes
    ensures nodeKey.Some? && nodeKey.value != "" ==>
      !HasKey(r, nodeKey.value) && forall k :: HasKey(r, k) <==> Unremoved(nodes, nodeKey.value, k)
  {
    if nodeKey.None? || nodeKey.value == "" then nodes
    else
      var r := DeleteNodeByKey(nodeKey.value, nodes);
      forall k ensures HasKey(r, k) <==> Unremoved(nodes, nodeKey.value, k) {
        DeleteKeepsUnremoved(nodeKey.value, nodes, k);
      }
      r
  }

  // ---------------------------------------------------------------------------------------
  // initProjects, loadOnExpand and expandTreeOnStart

  /**
   * `initProjects()` builds one top-level node per project the root listing returns;
   * `listing` is the parsed response of `GET /ws/ls`, `None` when the request or the JSON
   * parsing throws (the error toast is shown and no node is built).
   */
  method InitProjects(listing: Option<seq<string>>) returns (projectNodes: seq<TreeNode>)
    ensures listing.None? ==> projectNodes == []
    ensures listing.Some? ==> (|projectNodes| == |listing.value| &&
      forall i :: 0 <= i < |projectNodes| ==> projectNodes[i] == CreateNode(listing.value[i], listing.value[i]))
  {
    projectNodes := [];
    if listing.None? {
      return;
    }
    var projects := listing.value;
    var i := 0;
    while i < |projects|
      invariant 0 <= i <= |projects|
      invariant |projectNodes| == i
      invariant forall j :: 0 <= j < i ==> projectNodes[j] == CreateNode(projects[j], projects[j])
    {
      var projectNode := CreateNode(projects[i], projects[i]);
      projectNodes := projectNodes + [projectNode];
      i := i + 1;
    }
  }

  /** The projects are the top level of the tree, in listing order. */
  lemma ProjectsAreTopLevel(projects: seq<string>, projectNodes: seq<TreeNode>, name: string)
    requires |projectNodes| == |projects|
    requires forall i :: 0 <= i < |projectNodes| ==> projectNodes[i] == CreateNode(projects[i], projects[i])
    ensures TopKeys(projectNodes) == projects
    ensures name in projects ==> GetSelectedNodeByKey(name, projectNodes).Some?
  {
    assert TopKeys(projectNodes) == projects;
    if name in projects {
      var i :| 0 <= i < |projects| && projects[i] == name;
      HasKeyAt(projectNodes, i);
    }
  }

  /** A node of the top level has its key in the forest. */
  lemma {:induction false} HasKeyAt(ts: seq<TreeNode>, i: nat)
    requires i < |ts|
    ensures HasKey(ts, ts[i].key)
  {
    if i > 0 {
      HasKeyAt(ts[1..], i - 1);
    }
  }

  /**
   * The children `loadOnExpand` pushes for the listing `items` of folder `parentKey`: one new
   * folder node per item, keyed `${parentKey}/${item}`, unless `lookup` already has a node
   * with that key.
   */
  function ListedChildren(parentKey: string, lookup: seq<TreeNode>, items: seq<string>): (r: seq<TreeNode>)
    ensures |r| <= |items|
  {
    if items == [] then []
    else
      var init, item := items[..|items| - 1], items[|items| - 1];
      var nodeKey := ChildKey(parentKey, item);
      ListedChildren(parentKey, lookup, init) + (if HasKey(lookup, nodeKey) then [] else [CreateNode(item, nodeKey)])
  }

  /**
   * Every node loaded is a fresh node for a listed folder, keyed under the parent, whose
   * key was not already in the tree searched; and every listed folder whose key was not
   * there is loaded.
   */
  lemma {:induction false} ListedChildrenMembers(parentKey: string, lookup: seq<TreeNode>, items: seq<string>)
    ensures forall n :: n in ListedChildren(parentKey, lookup, items) ==>
      n.caption in items && n == CreateNode(n.caption, ChildKey(parentKey, n.caption)) && !HasKey(lookup, n.key)
    ensures forall item :: item in items && !HasKey(lookup, ChildKey(parentKey, item)) ==>
      CreateNode(item, ChildKey(parentKey, item)) in ListedChildren(parentKey, lookup, items)
  {
    if items != [] {
      var init, item := items[..|items| - 1], items[|items| - 1];
      assert items == init + [item];
      ListedChildrenMembers(parentKey, lookup, init);
    }
  }

  /**
   * `loadOnExpand(event)` for the node `node`: the children the node has afterwards. A node
   * that already has children is not listed again; otherwise `listing` is the parsed
   * response of `GET /ws/ls?url=${node.key}` (`None` when it throws) and `lookup` is the
   * tree the duplicate check searches (the widget's `nodes`).
   */
  method LoadOnExpand(node: TreeNode, lookup: seq<TreeNode>, listing: Option<seq<string>>) returns (children: seq<TreeNode>)
    ensures children == Expanded(node, lookup, listing)
    ensures |node.children| > 0 ==> children == node.children
    ensures |node.children| == 0 && listing.None? ==> children == []
    ensures |node.children| == 0 && listing.Some? ==> children == ListedChildren(node.key, lookup, listing.value)
  {
    children := node.children;
    if |children| > 0 || listing.None? {
      return;
    }
    var data := listing.value;
    var i := 0;
    while i < |data|
      invariant 0 <= i <= |data|
      invariant children == ListedChildren(node.key, lookup, data[..i])
    {
      var nodeKey := ChildKey(node.key, data[i]);
      var existedNode := GetSelectedNodeByKey(nodeKey, lookup);
      assert data[..i + 1][..i] == data[..i];
      if existedNode.None? {
        var newNode := CreateNode(data[i], nodeKey);
        children := children + [newNode];
      }
      i := i + 1;
    }
    assert data[..i] == data;
  }

  /** `searchParams.get("board")`, with a missing or empty parameter replaced by `home`. */
  function BoardPath(board: Option<string>): (p: string)
    ensures p != ""
    ensures board.None? || board.value == "" ==> p == "home"
    ensures board.Some? && board.value != "" ==> p == board.value
  {
    if board.None? || board.value == "" then "home" else board.value
  }

  /** The paths `start.join('/')` takes as the parts are pushed onto `start` one by one. */
  function PrefixPaths(parts: seq<string>): (r: seq<string>)
    ensures |r| == |parts|
  {
    if parts == [] then [] else PrefixPaths(parts[..|parts| - 1]) + [Join(parts, '/')]
  }

  /**
   * The k-th visited path is the first k + 1 parts joined by `/`, and for the parts of a
   * path, the last one visited is the path itself.
   */
  lemma {:induction false} PrefixPathsAre(parts: seq<string>, k: nat)
    requires k < |parts|
    ensures PrefixPaths(parts)[k] == Join(parts[..k + 1], '/')
  {
    if k < |parts| - 1 {
      var init := parts[..|parts| - 1];
      PrefixPathsAre(init, k);
      assert init[..k + 1] == parts[..k + 1];
    } else {
      assert parts[..k + 1] == parts;
    }
  }

  /** Pushing the next part visits the path the longer prefix joins to. */
  lemma PrefixPathsPush(start: seq<string>, part: string)
    ensures PrefixPaths(start + [part]) == PrefixPaths(start) + [Join(start + [part], '/')]
  {
    assert (start + [part])[..|start|] == start;
  }

  /** The last path visited for the parts of a path is the whole path. */
  lemma LastPrefixIsPath(path: string)
    ensures var ps := PrefixPaths(Split(path, '/')); ps[|ps| - 1] == path
  {
  }

  /**
   * `expandTreeOnStart(projectNodes)`: for each `/`-separated part of the board path, the
   * path up to and including that part is looked up in the tree; a node found there has
   * its children loaded (`listing` gives the response for each folder key) and its key is
   * marked expanded. Returns the paths visited, the keys marked expanded, the tree
   * afterwards and the node key selected at the end.
   */
  method ExpandTreeOnStart(board: Option<string>, projectNodes: seq<TreeNode>, lookup: seq<TreeNode>,
                           listing: string -> Option<seq<string>>)
    returns (visited: seq<string>, expanded: set<string>, tree: seq<TreeNode>, selected: string)
    ensures visited == PrefixPaths(Split(BoardPath(board), '/'))
    ensures (tree, expanded) == Walk(projectNodes, visited, lookup, listing)
    ensures selected == BoardPath(board)
    ensures forall p :: p in expanded ==> p in visited
    ensures forall p :: p in visited && HasKey(projectNodes, p) ==> p in expanded
    ensures forall x :: HasKey(projectNodes, x) ==> HasKey(tree, x)
  {
    var boardPath := BoardPath(board);
    visited, expanded, tree := ExpandAlong(Split(boardPath, '/'), projectNodes, lookup, listing);
    selected := boardPath;
  }

  /** The loop of `expandTreeOnStart` over the parts of the board path. */
  method ExpandAlong(parts: seq<string>, projectNodes: seq<TreeNode>, lookup: seq<TreeNode>,
                     listing: string -> Option<seq<string>>)
    returns (visited: seq<string>, expanded: set<string>, tree: seq<TreeNode>)
    ensures visited == PrefixPaths(parts)
    ensures (tree, expanded) == Walk(projectNodes, visited, lookup, listing)
    ensures forall p :: p in expanded ==> p in visited
    ensures forall p :: p in visited && HasKey(projectNodes, p) ==> p in expanded
    ensures forall x :: HasKey(projectNodes, x) ==> HasKey(tree, x)
  {
    var start: seq<string> := [];
    visited, expanded, tree := [], {}, projectNodes;
    var i := 0;
    while i < |parts|
      invariant 0 <= i <= |parts|
      invariant start == parts[..i]
      invariant visited == PrefixPaths(start)
      invariant (tree, expanded) == Walk(projectNodes, visited, lookup, listing)
      invariant forall p :: p in expanded ==> p in visited
      invariant forall p :: p in visited && HasKey(projectNodes, p) ==> p in expanded
      invariant forall x :: HasKey(projectNodes, x) ==> HasKey(tree, x)
    {
      PrefixPathsPush(start, parts[i]);
      start := start + [parts[i]];
      assert start == parts[..i + 1];
      var currentPath := Join(start, '/');
      assert (visited + [currentPath])[..|visited|] == visited;
      visited := visited + [currentPath];
      var found;
      tree, found := ExpandNode(tree, currentPath, lookup, listing(currentPath), projectNodes);
      if found {
        expanded := expanded + {currentPath};
      }
      i := i + 1;
    }
    assert start == parts;
  }

  /** The children a node has once `loadOnExpand` has run on it. */
  function Expanded(node: TreeNode, lookup: seq<TreeNode>, listing: Option<seq<string>>): seq<TreeNode>
  {
    if |node.children| > 0 then node.children
    else if listing.None? then []
    else ListedChildren(node.key, lookup, listing.value)
  }

  /**
   * The tree and the expanded keys after the paths of `paths` are visited in order, each
   * one expanding the first node keyed by it in the tree as the earlier visits left it.
   */
  function Walk(tree: seq<TreeNode>, paths: seq<string>, lookup: seq<TreeNode>,
                listing: string -> Option<seq<string>>): (seq<TreeNode>, set<string>)
  {
    if paths == [] then (tree, {})
    else
      var prev := Walk(tree, paths[..|paths| - 1], lookup, listing);
      var p := paths[|paths| - 1];
      var n := GetSelectedNodeByKey(p, prev.0);
      if n.Some? then (UpdateFirst(prev.0, p, SetChildren(Expanded(n.value, lookup, listing(p)))), prev.1 + {p})
      else prev
  }

  /**
   * A key is marked expanded exactly when it is one of the visited paths and, at its own
   * visit, a node with that key was in the tree.
   */
  lemma {:induction false} WalkExpandsFound(tree: seq<TreeNode>, paths: seq<string>, lookup: seq<TreeNode>,
                                            listing: string -> Option<seq<string>>, p: string)
    ensures p in Walk(tree, paths, lookup, listing).1 <==>
      exists i :: 0 <= i < |paths| && paths[i] == p && HasKey(Walk(tree, paths[..i], lookup, listing).0, p)
  {
    if paths != [] {
      var init := paths[..|paths| - 1];
      WalkExpandsFound(tree, init, lookup, listing, p);
      forall i | 0 <= i < |init|
        ensures init[..i] == paths[..i]
      {
      }
      if p in Walk(tree, paths, lookup, listing).1 && p !in Walk(tree, init, lookup, listing).1 {
        assert paths[|paths| - 1] == p && HasKey(Walk(tree, paths[..|paths| - 1], lookup, listing).0, p);
      }
    }
  }

  /**
   * One step of the walk: when a node keyed `path` is in the tree, it is expanded with the
   * folders `listing` names under it (or keeps the children it had); otherwise the tree is
   * unchanged. No key of `projectNodes` that was in the tree is lost.
   */
  method ExpandNode(tree: seq<TreeNode>, path: string, lookup: seq<TreeNode>, listing: Option<seq<string>>,
                    projectNodes: seq<TreeNode>)
    returns (next: seq<TreeNode>, found: bool)
    requires forall x :: HasKey(projectNodes, x) ==> HasKey(tree, x)
    ensures found <==> HasKey(tree, path)
    ensures HasKey(projectNodes, path) ==> found
    ensures !found ==> next == tree
    ensures found ==>
      next == UpdateFirst(tree, path, SetChildren(Expanded(GetSelectedNodeByKey(path, tree).value, lookup, listing)))
    ensures forall x :: HasKey(projectNodes, x) ==> HasKey(next, x)
  {
    var myTreeNode := GetSelectedNodeByKey(path, tree);
    found := myTreeNode.Some?;
    next := tree;
    if found {
      var node := myTreeNode.value;
      var children := LoadOnExpand(node, lookup, listing);
      ExpansionKeepsKeys(tree, path, children, projectNodes);
      next := UpdateFirst(tree, path, SetChildren(children));
    }
  }

  /**
   * Loading the children of the first node keyed `k` loses no key: either the node had
   * children and keeps them, or it had none.
   */
  lemma ExpansionKeepsKeys(tree: seq<TreeNode>, k: string, children: seq<TreeNode>, projectNodes: seq<TreeNode>)
    requires HasKey(tree, k)
    requires var n := GetSelectedNodeByKey(k, tree).value; |n.children| > 0 ==> children == n.children
    requires forall x :: HasKey(projectNodes, x) ==> HasKey(tree, x)
    ensures forall x :: HasKey(projectNodes, x) ==> HasKey(UpdateFirst(tree, k, SetChildren(children)), x)
  {
    forall x | HasKey(projectNodes, x) ensures HasKey(UpdateFirst(tree, k, SetChildren(children)), x) {
      UpdateFirstKeepsKeys(tree, k, SetChildren(children), x);
    }
  }
}
