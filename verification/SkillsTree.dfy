/**
 * The inode tree of the skills filesystem: the loops of `mount` that build it from the
 * listed skills, and the by-name `lookup` in a directory.
 */
module SkillsTree {
  import opened Basics
  import opened Text

  datatype Node = Dir(children: seq<nat>) | File(relPath: string, size: nat)

  datatype Tree = Tree(nodes: map<nat, Node>, paths: map<string, nat>, next: nat)

  datatype FileInfo = FileInfo(path: string, size: nat)

  datatype Skill = Skill(name: string, files: seq<FileInfo>)

  function NewTree(): Tree {
    Tree(map[1 := Dir([])], map[], 2)
  }

  /** Puts `node` under the next inode, records its path, and lists it if the parent is a directory. */
  function Add(t: Tree, parent: nat, path: string, node: Node): Tree {
    var nodes := t.nodes[t.next := node];
    Tree(
      if parent in nodes && nodes[parent].Dir? then nodes[parent := Dir(nodes[parent].children + [t.next])] else nodes,
      t.paths[path := t.next],
      t.next + 1)
  }

  /** The components of one file from the `i`-th on: missing directories, then the file. */
  function AddParts(t: Tree, name: string, file: FileInfo, parts: seq<string>, i: nat, parent: nat): Tree
    requires i < |parts|
    decreases |parts| - i
  {
    if i == |parts| - 1 then
      Add(t, parent, name + "/" + file.path, File(name + "/" + file.path, file.size))
    else
      var dirPath := name + "/" + Join(parts[..i + 1], '/');
      if dirPath in t.paths then AddParts(t, name, file, parts, i + 1, t.paths[dirPath])
      else AddParts(Add(t, parent, dirPath, Dir([])), name, file, parts, i + 1, t.next)
  }

  function AddFile(t: Tree, skill: Skill, file: FileInfo, inode: nat): Tree {
    AddParts(t, skill.name, file, Split(file.path, '/'), 0, inode)
  }

  /** The first `n` files of a skill. */
  function AddFiles(t: Tree, skill: Skill, inode: nat, n: nat): Tree
    requires n <= |skill.files|
  {
    if n == 0 then t else AddFile(AddFiles(t, skill, inode, n - 1), skill, skill.files[n - 1], inode)
  }

  function OpenSkill(t: Tree): Tree {
    t.(nodes := t.nodes[t.next := Dir([])], next := t.next + 1)
  }

  function CloseSkill(t: Tree, skill: Skill, inode: nat): Tree {
    var md := skill.name + "/SKILL.md";
    var t' := Add(t, inode, md, File(md, 0));
    t'.(paths := t'.paths[skill.name := inode])
  }

  function AddSkill(t: Tree, skill: Skill): Tree {
    CloseSkill(AddFiles(OpenSkill(t), skill, t.next, |skill.files|), skill, t.next)
  }

  /** The tree of the first `n` skills, and the inodes of those skills. */
  function AddSkills(skills: seq<Skill>, n: nat): (Tree, seq<nat>)
    requires n <= |skills|
  {
    if n == 0 then (NewTree(), [])
    else
      var (t, tops) := AddSkills(skills, n - 1);
      (AddSkill(t, skills[n - 1]), tops + [t.next])
  }

  function Mounted(skills: seq<Skill>): Tree {
    var (t, tops) := AddSkills(skills, |skills|);
    t.(nodes := t.nodes[1 := Dir(tops)])
  }

  method Mount(skills: seq<Skill>) returns (tree: Tree)
    ensures tree == Mounted(skills)
  {
    tree := NewTree();
    var rootChildren := [];
    for k := 0 to |skills|
      invariant (tree, rootChildren) == AddSkills(skills, k)
    {
      var skill := skills[k];
      var inode := tree.next;
      tree := tree.(next := tree.next + 1);
      tree := tree.(nodes := tree.nodes[inode := Dir([])]);
      ghost var start := tree;
      for f := 0 to |skill.files|
        invariant tree == AddFiles(start, skill, inode, f)
      {
        tree := MountFile(tree, skill.name, skill.files[f], inode);
      }
      var md := skill.name + "/SKILL.md";
      tree := Push(tree, inode, md, File(md, 0));
      tree := tree.(paths := tree.paths[skill.name := inode]);
      rootChildren := rootChildren + [inode];
    }
    tree := tree.(nodes := tree.nodes[1 := Dir(rootChildren)]);
  }

  method MountFile(t: Tree, name: string, file: FileInfo, inode: nat) returns (tree: Tree)
    ensures tree == AddParts(t, name, file, Split(file.path, '/'), 0, inode)
  {
    tree := t;
    var parts := Split(file.path, '/');
    var parent := inode;
    for i := 0 to |parts| - 1
      invariant AddParts(tree, name, file, parts, i, parent) == AddParts(t, name, file, parts, 0, inode)
    {
      var dirPath := name + "/" + Join(parts[..i + 1], '/');
      if dirPath in tree.paths {
        parent := tree.paths[dirPath];
      } else {
        var created := tree.next;
        tree := Push(tree, parent, dirPath, Dir([]));
        parent := created;
      }
    }
    tree := Push(tree, parent, name + "/" + file.path, File(name + "/" + file.path, file.size));
  }

  method Push(t: Tree, parent: nat, path: string, node: Node) returns (tree: Tree)
    ensures tree == Add(t, parent, path, node)
  {
    var inode := t.next;
    tree := t.(next := t.next + 1);
    tree := tree.(nodes := tree.nodes[inode := node]);
    tree := tree.(paths := tree.paths[path := inode]);
    if parent in tree.nodes && tree.nodes[parent].Dir? {
      tree := tree.(nodes := tree.nodes[parent := Dir(tree.nodes[parent].children + [inode])]);
    }
  }

  // ---------------------------------------------------------------- lookup

  /** The order in which the path map is iterated lists exactly its keys. */
  ghost predicate IsOrder(t: Tree, order: seq<string>) {
    forall k :: k in order <==> k in t.paths
  }

  /** The first path, in iteration order, that maps to `inode`. */
  function KeyOf(paths: map<string, nat>, order: seq<string>, inode: nat): (r: Option<string>)
    ensures r.Some? ==> r.value in order && r.value in paths && paths[r.value] == inode
    ensures r.None? ==> forall k :: k in order && k in paths ==> paths[k] != inode
  {
    if order == [] then None
    else if order[0] in paths && paths[order[0]] == inode then Some(order[0])
    else KeyOf(paths, order[1..], inode)
  }

  function LastPart(path: string): string {
    var parts := Split(path, '/');
    parts[|parts| - 1]
  }

  /** The name a child is found by. */
  function BaseName(t: Tree, order: seq<string>, c: nat): Option<string> {
    if c !in t.nodes then None
    else
      match t.nodes[c]
      case File(relPath, _) => Some(LastPart(relPath))
      case Dir(_) =>
        match KeyOf(t.paths, order, c)
        case Some(path) => Some(LastPart(path))
        case None => None
  }

  function Children(t: Tree, inode: nat): seq<nat> {
    if inode in t.nodes && t.nodes[inode].Dir? then t.nodes[inode].children else []
  }

  /** A child with that name, before which no child has it. */
  method Lookup(t: Tree, order: seq<string>, parent: nat, name: string) returns (r: Option<nat>)
    ensures r == FirstNamed(t, order, Children(t, parent), name)
  {
    if !(parent in t.nodes && t.nodes[parent].Dir?) {
      return None;
    }
    var children := t.nodes[parent].children;
    for a := 0 to |children|
      invariant FirstNamed(t, order, children, name) == FirstNamed(t, order, children[a..], name)
    {
      if BaseName(t, order, children[a]) == Some(name) {
        return Some(children[a]);
      }
    }
    return None;
  }

  function FirstNamed(t: Tree, order: seq<string>, children: seq<nat>, name: string): (r: Option<nat>)
    ensures r.Some? ==> r.value in children && BaseName(t, order, r.value) == Some(name)
    ensures r.None? ==> forall c :: c in children ==> BaseName(t, order, c) != Some(name)
  {
    if children == [] then None
    else if BaseName(t, order, children[0]) == Some(name) then Some(children[0])
    else FirstNamed(t, order, children[1..], name)
  }

  /** Looking up one component after another. */
  function Resolve(t: Tree, order: seq<string>, inode: nat, path: seq<string>): Option<nat>
    decreases |path|
  {
    if path == [] then Some(inode)
    else
      match FirstNamed(t, order, Children(t, inode), path[0])
      case Some(c) => Resolve(t, order, c, path[1..])
      case None => None
  }
}
