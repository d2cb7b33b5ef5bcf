/** Where a job's configuration keeps its source-control branch
    (jenkins_cli/cli.py, `_get_scm_name_and_node`), and the rewrite of that
    branch by `set_branch`. The configuration is an already parsed element
    tree; parsing and serialising XML are not modelled. */
module Scm {
  import opened Results

  /** An XML element: tag, attributes, child elements in document order,
      and its text, if any. */
  datatype Element = Element(tag: string, attrib: map<string, string>, children: seq<Element>, text: Option<string>)

  /** Position of the first child with this tag. */
  function FindIndex(children: seq<Element>, tag: string): (r: Option<nat>)
    ensures r.None? <==> forall i :: 0 <= i < |children| ==> children[i].tag != tag
    ensures r.Some? ==> r.value < |children| && children[r.value].tag == tag &&
                        (forall i :: 0 <= i < r.value ==> children[i].tag != tag)
    decreases |children|
  {
    if |children| == 0 then None
    else if children[0].tag == tag then Some(0)
    else
      match FindIndex(children[1..], tag)
      case None => None
      case Some(i) => Some(i + 1)
  }

  /** `element.find(tag)` with a plain tag: the first matching child. */
  function Find(e: Element, tag: string): Option<Element> {
    match FindIndex(e.children, tag)
    case None => None
    case Some(i) => Some(e.children[i])
  }

  /** A chain of `find` calls, where a missing step ends the chain (the
      source's `AttributeError` on `None`, which it catches). */
  function FindAlong(e: Element, path: seq<string>): Option<Element>
    decreases |path|
  {
    if |path| == 0 then Some(e)
    else
      match Find(e, path[0])
      case None => None
      case Some(c) => FindAlong(c, path[1..])
  }

  const MercurialClass := "hudson.plugins.mercurial.MercurialSCM"
  const GitClass := "hudson.plugins.git.GitSCM"

  datatype ScmKind = Mercurial | Git | UnknownScm

  /** The source-control kind each `class` attribute names. */
  function KindOf(cls: string): ScmKind {
    if cls == MercurialClass then Mercurial
    else if cls == GitClass then Git
    else UnknownScm
  }

  /** Below `<scm>`, the path to the element holding the branch. */
  function BranchPath(kind: ScmKind): seq<string> {
    match kind
    case Mercurial => ["revision"]
    case Git => ["branches", "hudson.plugins.git.BranchSpec", "name"]
    case UnknownScm => []
  }

  /** The kind and the branch element: no `<scm>` child gives an unknown
      kind; a `<scm>` without a `class` attribute is an error; a known class
      whose path is incomplete keeps its kind but has no branch element. */
  function ScmNameAndNode(root: Element): (r: Result<(ScmKind, Option<Element>)>)
    ensures r.Err? <==> Find(root, "scm").Some? && "class" !in Find(root, "scm").value.attrib
    ensures r.Err? ==> r.error == ScmClassMissing
    // a known kind is the one the `class` attribute names, with the element
    // at the end of that kind's path
    ensures r.Ok? && r.value.0 != UnknownScm ==>
      Find(root, "scm").Some? && "class" in Find(root, "scm").value.attrib &&
      KindOf(Find(root, "scm").value.attrib["class"]) == r.value.0 &&
      r.value.1 == FindAlong(Find(root, "scm").value, BranchPath(r.value.0))
    ensures Find(root, "scm").Some? && "class" in Find(root, "scm").value.attrib ==>
      r.Ok? && r.value.0 == KindOf(Find(root, "scm").value.attrib["class"])
    ensures r.Ok? && r.value.1.Some? ==>
      r.value.1.value.tag == (if r.value.0 == Mercurial then "revision" else "name")
    ensures r.Ok? && r.value.0 == UnknownScm ==> r.value.1.None?
  {
    match Find(root, "scm")
    case None => Ok((UnknownScm, None))
    case Some(scm) =>
      if "class" !in scm.attrib then Err(ScmClassMissing)
      else
        var kind := KindOf(scm.attrib["class"]);
        if kind == UnknownScm then Ok((UnknownScm, None))
        else
          FindAlongTag(scm, BranchPath(kind));
          Ok((kind, FindAlong(scm, BranchPath(kind))))
  }

  /** What `FindAlong` finds carries the last tag of the path. */
  lemma {:induction false} FindAlongTag(e: Element, path: seq<string>)
    ensures |path| > 0 && FindAlong(e, path).Some? ==> FindAlong(e, path).value.tag == path[|path| - 1]
    decreases |path|
  {
    if |path| > 0 {
      match Find(e, path[0])
      case None =>
      case Some(c) =>
        FindAlongTag(c, path[1..]);
    }
  }

  /** The element at the end of `path`, with its text replaced; the tree is
      unchanged when the path is incomplete. Along the path, each element
      keeps its tag, its attributes and every child off the path. */
  function SetAlong(e: Element, path: seq<string>, text: Option<string>): (r: Element)
    ensures r.tag == e.tag
    ensures |path| > 0 ==> r.attrib == e.attrib && r.text == e.text && |r.children| == |e.children|
    ensures |path| > 0 && FindIndex(e.children, path[0]).Some? ==>
      forall k :: 0 <= k < |e.children| && k != FindIndex(e.children, path[0]).value ==>
        r.children[k] == e.children[k]
    decreases |path|
  {
    if |path| == 0 then e.(text := text)
    else
      match FindIndex(e.children, path[0])
      case None => e
      case Some(i) => e.(children := e.children[i := SetAlong(e.children[i], path[1..], text)])
  }

  /** `set_branch`: rewrite the branch element's text. `Ok(None)` is the
      "Can't set branch name" outcome, when no branch element was found. */
  function SetBranch(root: Element, branch: string): (r: Result<Option<Element>>)
    ensures r.Err? <==> ScmNameAndNode(root).Err?
    ensures r == Ok(None) <==> ScmNameAndNode(root).Ok? && ScmNameAndNode(root).value.1.None?
  {
    match ScmNameAndNode(root)
    case Err(e) => Err(e)
    case Ok((kind, node)) =>
      if node.None? then Ok(None)
      else Ok(Some(SetAlong(root, ["scm"] + BranchPath(kind), Some(branch))))
  }

  /** Reading the rewritten tree finds the same kind and the same branch
      element, now holding the new branch name. */
  lemma SetBranchRoundTrip(root: Element, branch: string)
    requires SetBranch(root, branch).Ok? && SetBranch(root, branch).value.Some?
    ensures var (kind, node) := ScmNameAndNode(root).value;
      node.Some? &&
      ScmNameAndNode(SetBranch(root, branch).value.value) == Ok((kind, Some(node.value.(text := Some(branch)))))
  {
    var (kind, node) := ScmNameAndNode(root).value;
    var path := ["scm"] + BranchPath(kind);
    assert FindAlong(root, path) == FindAlong(Find(root, "scm").value, BranchPath(kind)) by {
      assert path[0] == "scm" && path[1..] == BranchPath(kind);
    }
    SetAlongFinds(root, path, Some(branch));
    var root' := SetAlong(root, path, Some(branch));
    var i := FindIndex(root.children, "scm").value;
    SameTagsSameIndex(root.children, root'.children, "scm");
    var scm' := Find(root', "scm").value;
    assert scm' == SetAlong(Find(root, "scm").value, BranchPath(kind), Some(branch));
    assert FindAlong(root', path) == FindAlong(scm', BranchPath(kind)) by {
      assert path[0] == "scm" && path[1..] == BranchPath(kind);
    }
  }

  /** Setting the text along a path and reading along it again finds the
      same element with the new text. */
  lemma {:induction false} SetAlongFinds(e: Element, path: seq<string>, text: Option<string>)
    requires FindAlong(e, path).Some?
    ensures FindAlong(SetAlong(e, path, text), path) == Some(FindAlong(e, path).value.(text := text))
    decreases |path|
  {
    if |path| > 0 {
      var i := FindIndex(e.children, path[0]).value;
      var c := e.children[i];
      var r := SetAlong(e, path, text);
      assert r.children == e.children[i := SetAlong(c, path[1..], text)];
      SameTagsSameIndex(e.children, r.children, path[0]);
      assert Find(r, path[0]) == Some(SetAlong(c, path[1..], text));
      SetAlongFinds(c, path[1..], text);
    }
  }

  /** An incomplete path leaves the tree as it was. */
  lemma {:induction false} SetAlongMissing(e: Element, path: seq<string>, text: Option<string>)
    requires FindAlong(e, path).None?
    ensures SetAlong(e, path, text) == e
    decreases |path|
  {
    match FindIndex(e.children, path[0])
    case None =>
    case Some(i) =>
      SetAlongMissing(e.children[i], path[1..], text);
      assert e.children[i := e.children[i]] == e.children;
  }

  /** Putting the old text back undoes the rewrite: the rewritten tree
      differs from the original in the text of that one element only. */
  lemma {:induction false} SetAlongRestores(e: Element, path: seq<string>, text: Option<string>)
    requires FindAlong(e, path).Some?
    ensures SetAlong(SetAlong(e, path, text), path, FindAlong(e, path).value.text) == e
    decreases |path|
  {
    if |path| > 0 {
      var i := FindIndex(e.children, path[0]).value;
      var c := e.children[i];
      var c' := SetAlong(c, path[1..], text);
      var r := SetAlong(e, path, text);
      assert r.children == e.children[i := c'];
      SameTagsSameIndex(e.children, r.children, path[0]);
      SetAlongRestores(c, path[1..], text);
      assert FindAlong(e, path) == FindAlong(c, path[1..]);
      assert r.children[i := c] == e.children;
    }
  }

  /** `set_branch` changes nothing but the branch text: writing the old
      text back into the rewritten configuration gives back the original. */
  lemma SetBranchRestores(root: Element, branch: string)
    requires SetBranch(root, branch).Ok? && SetBranch(root, branch).value.Some?
    ensures var (kind, node) := ScmNameAndNode(root).value;
      node.Some? &&
      SetAlong(SetBranch(root, branch).value.value, ["scm"] + BranchPath(kind), node.value.text) == root
  {
    var (kind, node) := ScmNameAndNode(root).value;
    var path := ["scm"] + BranchPath(kind);
    assert FindAlong(root, path) == FindAlong(Find(root, "scm").value, BranchPath(kind)) by {
      assert path[0] == "scm" && path[1..] == BranchPath(kind);
    }
    SetAlongRestores(root, path, Some(branch));
  }

  /** Two child lists with the same tags in the same places find the same
      position. */
  lemma {:induction false} SameTagsSameIndex(a: seq<Element>, b: seq<Element>, tag: string)
    requires |a| == |b|
    requires forall i :: 0 <= i < |a| ==> a[i].tag == b[i].tag
    ensures FindIndex(a, tag) == FindIndex(b, tag)
    decreases |a|
  {
    if |a| > 0 && a[0].tag != tag {
      SameTagsSameIndex(a[1..], b[1..], tag);
    }
  }
}
