/**
 * The skills tree is a tree: for distinct skill names and prefix-free paths every inode has
 * one smaller parent, and looking up a path reaches a file exactly when the path is listed.
 */
module SkillsTreeProofs {
  import opened Basics
  import opened Text
  import opened SkillsTree

  type Location = seq<string>

  /** Where each inode lies, its parent, and a file at each location already added. */
  datatype Where = Where(loc: map<nat, Location>, parent: map<nat, nat>, at: map<Location, nat>)

  // ------------------------------------------------------------ the listing

  function FileLocation(name: string, file: FileInfo): Location {
    [name] + Split(file.path, '/')
  }

  /** The locations of the first `n` files of a skill. */
  function FileLocations(skill: Skill, n: nat): set<Location>
    requires n <= |skill.files|
  {
    if n == 0 then {} else FileLocations(skill, n - 1) + {FileLocation(skill.name, skill.files[n - 1])}
  }

  /** The locations of a skill's files, its SKILL.md among them. */
  function ListedIn(skill: Skill): set<Location> {
    FileLocations(skill, |skill.files|) + {[skill.name, "SKILL.md"]}
  }

  function ListedUpTo(skills: seq<Skill>, n: nat): set<Location>
    requires n <= |skills|
  {
    if n == 0 then {} else ListedUpTo(skills, n - 1) + ListedIn(skills[n - 1])
  }

  function Listed(skills: seq<Skill>): set<Location> {
    ListedUpTo(skills, |skills|)
  }

  /** No location is a proper prefix of another. */
  ghost predicate PrefixFree(listed: set<Location>) {
    forall a, b :: a in listed && b in listed ==> !(a < b)
  }

  ghost predicate DistinctNames(skills: seq<Skill>) {
    && (forall i, j :: 0 <= i < j < |skills| ==> skills[i].name != skills[j].name)
    && (forall i :: 0 <= i < |skills| ==> '/' !in skills[i].name)
  }

  ghost predicate Mountable(skills: seq<Skill>) {
    DistinctNames(skills) && PrefixFree(Listed(skills))
  }

  // ------------------------------------------------------------- invariant

  predicate SlashFree(l: Location) {
    forall p :: p in l ==> '/' !in p
  }

  /** A directory's location: some listed file lies below it. */
  ghost predicate Leads(listed: set<Location>, l: Location) {
    exists f :: f in listed && l < f
  }

  /** The children of an inode; those of the root are collected in `tops` until the end. */
  function Kids(t: Tree, tops: seq<nat>, i: nat): seq<nat> {
    if i == 1 then tops else Children(t, i)
  }

  ghost predicate KidsOk(kids: seq<nat>, i: nat, next: nat, parent: map<nat, nat>) {
    && (forall a :: 0 <= a < |kids| ==> i < kids[a] < next && kids[a] in parent && parent[kids[a]] == i)
    && (forall a, b :: 0 <= a < b < |kids| ==> kids[a] < kids[b])
  }

  /** Inode `i` lies one component below its parent, which lists it. */
  ghost predicate PlaceOk(t: Tree, tops: seq<nat>, w: Where, i: nat) {
    && i in w.parent && 1 <= w.parent[i] < i
    && w.parent[i] in t.nodes && t.nodes[w.parent[i]].Dir? && w.parent[i] in w.loc
    && i in Kids(t, tops, w.parent[i])
    && i in w.loc && w.loc[i] != [] && SlashFree(w.loc[i])
    && w.loc[i][..|w.loc[i]| - 1] == w.loc[w.parent[i]]
  }

  /** Inode `i` holds a listed file or a directory above one, found under its path. */
  ghost predicate NameOk(t: Tree, w: Where, listed: set<Location>, cur: nat, i: nat) {
    && i in t.nodes && i in w.loc && w.loc[i] != []
    && match t.nodes[i]
       case File(relPath, _) => relPath == Join(w.loc[i], '/') && w.loc[i] in listed
       case Dir(_) =>
         && Leads(listed, w.loc[i])
         && (i != cur ==> Join(w.loc[i], '/') in t.paths && t.paths[Join(w.loc[i], '/')] == i)
  }

  ghost predicate NodeOk(t: Tree, tops: seq<nat>, w: Where, listed: set<Location>, cur: nat, i: nat) {
    && i in t.nodes
    && KidsOk(Kids(t, tops, i), i, t.next, w.parent)
    && if i == 1 then t.nodes[1].Dir? && 1 in w.loc && w.loc[1] == []
       else PlaceOk(t, tops, w, i) && NameOk(t, w, listed, cur, i)
  }

  /** A path leads to an inode at that very location. */
  ghost predicate KeysOk(t: Tree, w: Where) {
    forall k :: k in t.paths ==>
      1 < t.paths[k] < t.next && t.paths[k] in w.loc && w.loc[t.paths[k]] != [] && k == Join(w.loc[t.paths[k]], '/')
  }

  ghost predicate AtOk(t: Tree, w: Where) {
    forall l :: l in w.at ==>
      1 < w.at[l] < t.next && w.at[l] in w.loc && w.loc[w.at[l]] == l && w.at[l] in t.nodes && t.nodes[w.at[l]].File?
  }

  ghost predicate Inv(t: Tree, tops: seq<nat>, w: Where, listed: set<Location>, cur: nat) {
    && t.next >= 2
    && (forall i :: i in t.nodes ==> 1 <= i < t.next)
    && (forall i :: 1 <= i < t.next ==> NodeOk(t, tops, w, listed, cur, i))
    && KeysOk(t, w)
    && AtOk(t, w)
  }

  // ---------------------------------------------------- one node is added

  function Placed(w: Where, i: nat, l: Location, parent: nat): Where {
    w.(loc := w.loc[i := l], parent := w.parent[i := parent])
  }

  /** What may be added at `l` below `parent`: a listed file, or a directory that is not there yet. */
  ghost predicate Addable(t: Tree, w: Where, listed: set<Location>, parent: nat, l: Location, node: Node) {
    && 1 < parent < t.next && parent in t.nodes && t.nodes[parent].Dir?
    && parent in w.loc && w.loc[parent] != [] && |l| == |w.loc[parent]| + 1
    && l[..|l| - 1] == w.loc[parent] && SlashFree(l)
    && match node
       case File(relPath, _) => relPath == Join(l, '/') && l in listed
       case Dir(children) => children == [] && Leads(listed, l) && Join(l, '/') !in t.paths
  }

  lemma KeepName(t: Tree, tops: seq<nat>, w: Where, listed: set<Location>, cur: nat, parent: nat, l: Location,
                 node: Node, i: nat)
    requires PrefixFree(listed) && Addable(t, w, listed, parent, l, node)
    requires 1 < i < t.next && NameOk(t, w, listed, cur, i) && SlashFree(w.loc[i])
    ensures NameOk(Add(t, parent, Join(l, '/'), node), Placed(w, t.next, l, parent), listed, cur, i)
  {
    if t.nodes[i].Dir? && Join(w.loc[i], '/') == Join(l, '/') {
      JoinInjective(w.loc[i], l, '/');
    }
  }

  lemma KeepNode(t: Tree, tops: seq<nat>, w: Where, listed: set<Location>, cur: nat, parent: nat, l: Location,
                 node: Node, i: nat)
    requires PrefixFree(listed) && Addable(t, w, listed, parent, l, node)
    requires 1 <= i < t.next && NodeOk(t, tops, w, listed, cur, i)
    ensures NodeOk(Add(t, parent, Join(l, '/'), node), tops, Placed(w, t.next, l, parent), listed, cur, i)
  {
    if i > 1 {
      KeepName(t, tops, w, listed, cur, parent, l, node, i);
    }
  }

  lemma NewNode(t: Tree, tops: seq<nat>, w: Where, listed: set<Location>, cur: nat, parent: nat, l: Location,
                node: Node)
    requires Addable(t, w, listed, parent, l, node)
    ensures NodeOk(Add(t, parent, Join(l, '/'), node), tops, Placed(w, t.next, l, parent), listed, cur, t.next)
  {
    var t' := Add(t, parent, Join(l, '/'), node);
    assert t'.nodes[parent].children[|t.nodes[parent].children|] == t.next;
  }

  lemma AddInv(t: Tree, tops: seq<nat>, w: Where, listed: set<Location>, cur: nat, parent: nat, l: Location, node: Node)
    requires PrefixFree(listed) && Inv(t, tops, w, listed, cur) && Addable(t, w, listed, parent, l, node)
    ensures Inv(Add(t, parent, Join(l, '/'), node), tops, Placed(w, t.next, l, parent), listed, cur)
  {
    var t', w' := Add(t, parent, Join(l, '/'), node), Placed(w, t.next, l, parent);
    forall i | 1 <= i < t'.next ensures NodeOk(t', tops, w', listed, cur, i) {
      if i == t.next {
        NewNode(t, tops, w, listed, cur, parent, l, node);
      } else {
        assert NodeOk(t, tops, w, listed, cur, i);
        KeepNode(t, tops, w, listed, cur, parent, l, node, i);
      }
    }
  }

  // -------------------------------------------------------- a file is added

  function Marked(w: Where, l: Location, i: nat): Where {
    w.(at := w.at[l := i])
  }

  /** The skill being built: a directory at its own name. */
  ghost predicate CurOk(t: Tree, w: Where, cur: nat, name: string) {
    1 < cur < t.next && cur in t.nodes && t.nodes[cur].Dir? && cur in w.loc && w.loc[cur] == [name]
  }

  /** Every new path has a slash. */
  ghost predicate OnlyDeepPaths(t: Tree, t': Tree) {
    forall k :: k in t'.paths ==> k in t.paths || '/' in k
  }

  lemma AddFileInv(t: Tree, tops: seq<nat>, w: Where, listed: set<Location>, cur: nat, parent: nat,
                   l: Location, size: nat)
      returns (w': Where)
    requires PrefixFree(listed) && Inv(t, tops, w, listed, cur)
    requires l != [] && Addable(t, w, listed, parent, l, File(Join(l, '/'), size))
    ensures w' == Marked(Placed(w, t.next, l, parent), l, t.next)
    ensures Inv(Add(t, parent, Join(l, '/'), File(Join(l, '/'), size)), tops, w', listed, cur)
  {
    var node := File(Join(l, '/'), size);
    AddInv(t, tops, w, listed, cur, parent, l, node);
    var t', placed := Add(t, parent, Join(l, '/'), node), Placed(w, t.next, l, parent);
    w' := Marked(placed, l, t.next);
    forall i | 1 <= i < t'.next ensures NodeOk(t', tops, w', listed, cur, i) {
      assert NodeOk(t', tops, placed, listed, cur, i);
    }
  }

  /** A path of the current file that is already there is a directory at that location. */
  lemma FoundIsDir(t: Tree, tops: seq<nat>, w: Where, listed: set<Location>, cur: nat, l: Location, n: nat)
    requires PrefixFree(listed) && Inv(t, tops, w, listed, cur)
    requires l in listed && SlashFree(l) && 0 < n < |l| && Join(l[..n], '/') in t.paths
    ensures var i := t.paths[Join(l[..n], '/')];
            1 < i < t.next && i in t.nodes && t.nodes[i].Dir? && i in w.loc && w.loc[i] == l[..n]
  {
    var i := t.paths[Join(l[..n], '/')];
    assert NodeOk(t, tops, w, listed, cur, i);
    JoinInjective(w.loc[i], l[..n], '/');
    assert l[..n] < l;
  }

  /** `parent` is the directory of the first `i` components of the file. */
  ghost predicate ParentOk(t: Tree, w: Where, listed: set<Location>,
                           name: string, file: FileInfo, i: nat, parent: nat) {
    && '/' !in name && FileLocation(name, file) in listed
    && i < |Split(file.path, '/')|
    && 1 < parent < t.next && parent in t.nodes && t.nodes[parent].Dir?
    && parent in w.loc && w.loc[parent] == FileLocation(name, file)[..i + 1]
  }

  /** The directory of the next component: its location, and its path as the loop builds it. */
  lemma NextComponent(name: string, file: FileInfo, i: nat)
    requires '/' !in name && i + 1 < |Split(file.path, '/')|
    ensures var parts, l := Split(file.path, '/'), FileLocation(name, file);
            var below := l[..i + 2];
            && SlashFree(l) && below < l && |below| == i + 2 && below[..i + 1] == l[..i + 1]
            && Join(below, '/') == name + "/" + Join(parts[..i + 1], '/') && '/' in Join(below, '/')
  {
    var parts, l := Split(file.path, '/'), FileLocation(name, file);
    assert l[1..] == parts;
    assert l[..i + 2] == [name] + parts[..i + 1];
  }

  /** Makes sure that the directory of the next component is there. */
  lemma DirPartInv(t: Tree, tops: seq<nat>, w: Where, listed: set<Location>, cur: nat,
                   name: string, file: FileInfo, i: nat, parent: nat) returns (t': Tree, w': Where, parent': nat)
    requires PrefixFree(listed) && Inv(t, tops, w, listed, cur) && CurOk(t, w, cur, name)
    requires ParentOk(t, w, listed, name, file, i, parent) && i + 1 < |Split(file.path, '/')|
    ensures Inv(t', tops, w', listed, cur) && CurOk(t', w', cur, name) && OnlyDeepPaths(t, t')
    ensures ParentOk(t', w', listed, name, file, i + 1, parent') && w'.at == w.at
    ensures var parts := Split(file.path, '/');
            AddParts(t, name, file, parts, i, parent) == AddParts(t', name, file, parts, i + 1, parent')
  {
    var l := FileLocation(name, file);
    var below := l[..i + 2];
    NextComponent(name, file, i);
    var dirPath := Join(below, '/');
    if dirPath in t.paths {
      FoundIsDir(t, tops, w, listed, cur, l, i + 2);
      t', w', parent' := t, w, t.paths[dirPath];
    } else {
      AddInv(t, tops, w, listed, cur, parent, below, Dir([]));
      t', w', parent' := Add(t, parent, dirPath, Dir([])), Placed(w, t.next, below, parent), t.next;
    }
  }

  lemma {:induction false} PartsInv(t: Tree, tops: seq<nat>, w: Where, listed: set<Location>, cur: nat,
                                    name: string, file: FileInfo, i: nat, parent: nat) returns (w': Where)
    requires PrefixFree(listed) && Inv(t, tops, w, listed, cur) && CurOk(t, w, cur, name)
    requires ParentOk(t, w, listed, name, file, i, parent)
    ensures var t' := AddParts(t, name, file, Split(file.path, '/'), i, parent);
            Inv(t', tops, w', listed, cur) && CurOk(t', w', cur, name) && OnlyDeepPaths(t, t')
    ensures w.at.Keys + {FileLocation(name, file)} <= w'.at.Keys
    decreases |Split(file.path, '/')| - i
  {
    var parts, l := Split(file.path, '/'), FileLocation(name, file);
    if i == |parts| - 1 {
      JoinSplit(file.path, '/');
      assert l[1..] == parts && SlashFree(l) && l[..|l| - 1] == l[..i + 1];
      w' := AddFileInv(t, tops, w, listed, cur, parent, l, file.size);
    } else {
      var t1, w1, parent1 := DirPartInv(t, tops, w, listed, cur, name, file, i, parent);
      w' := PartsInv(t1, tops, w1, listed, cur, name, file, i + 1, parent1);
    }
  }

  lemma FileInv(t: Tree, tops: seq<nat>, w: Where, listed: set<Location>, cur: nat, skill: Skill, file: FileInfo)
      returns (w': Where)
    requires PrefixFree(listed) && Inv(t, tops, w, listed, cur) && CurOk(t, w, cur, skill.name)
    requires '/' !in skill.name && FileLocation(skill.name, file) in listed
    ensures var t' := AddFile(t, skill, file, cur);
            Inv(t', tops, w', listed, cur) && CurOk(t', w', cur, skill.name) && OnlyDeepPaths(t, t')
    ensures w.at.Keys + {FileLocation(skill.name, file)} <= w'.at.Keys
  {
    w' := PartsInv(t, tops, w, listed, cur, skill.name, file, 0, cur);
  }

  lemma {:induction false} FilesInv(t: Tree, tops: seq<nat>, w: Where, listed: set<Location>, cur: nat,
                                    skill: Skill, n: nat)
      returns (w': Where)
    requires PrefixFree(listed) && Inv(t, tops, w, listed, cur) && CurOk(t, w, cur, skill.name)
    requires '/' !in skill.name && n <= |skill.files| && FileLocations(skill, n) <= listed
    ensures var t' := AddFiles(t, skill, cur, n);
            Inv(t', tops, w', listed, cur) && CurOk(t', w', cur, skill.name) && OnlyDeepPaths(t, t')
    ensures w.at.Keys + FileLocations(skill, n) <= w'.at.Keys
  {
    if n == 0 {
      w' := w;
    } else {
      var w1 := FilesInv(t, tops, w, listed, cur, skill, n - 1);
      var file := skill.files[n - 1];
      w' := FileInv(AddFiles(t, skill, cur, n - 1), tops, w1, listed, cur, skill, file);
    }
  }

  // ------------------------------------------------------- a skill is added

  lemma OpenInv(t: Tree, tops: seq<nat>, w: Where, listed: set<Location>, name: string)
    requires Inv(t, tops, w, listed, 0) && '/' !in name && [name, "SKILL.md"] in listed
    ensures Inv(OpenSkill(t), tops + [t.next], Placed(w, t.next, [name], 1), listed, t.next)
  {
    var t', tops', w' := OpenSkill(t), tops + [t.next], Placed(w, t.next, [name], 1);
    forall i | 1 <= i < t'.next ensures NodeOk(t', tops', w', listed, t.next, i) {
      if i < t.next {
        assert NodeOk(t, tops, w, listed, 0, i);
      } else {
        assert NodeOk(t, tops, w, listed, 0, 1);
        assert [name] < [name, "SKILL.md"];
        assert tops'[|tops|] == i;
      }
    }
  }

  /** Recording the skill under its name completes its directory. */
  lemma NamedInv(t: Tree, tops: seq<nat>, w: Where, listed: set<Location>, cur: nat, name: string)
    requires Inv(t, tops, w, listed, cur) && CurOk(t, w, cur, name) && name !in t.paths
    ensures Inv(t.(paths := t.paths[name := cur]), tops, w, listed, 0)
  {
    var t' := t.(paths := t.paths[name := cur]);
    forall i | 1 <= i < t'.next ensures NodeOk(t', tops, w, listed, 0, i) {
      assert NodeOk(t, tops, w, listed, cur, i);
      assert Kids(t', tops, i) == Kids(t, tops, i);
    }
  }

  lemma SkillMdLocation(name: string)
    requires '/' !in name
    ensures name + "/SKILL.md" == Join([name, "SKILL.md"], '/') && '/' in name + "/SKILL.md"
    ensures [name, "SKILL.md"][..1] == [name] && SlashFree([name, "SKILL.md"])
  {
    assert [name, "SKILL.md"] == [name] + ["SKILL.md"];
    assert name + "/SKILL.md" == name + "/" + "SKILL.md";
  }

  lemma CloseInv(t: Tree, tops: seq<nat>, w: Where, listed: set<Location>, cur: nat, skill: Skill) returns (w': Where)
    requires PrefixFree(listed) && Inv(t, tops, w, listed, cur) && CurOk(t, w, cur, skill.name)
    requires skill.name !in t.paths && '/' !in skill.name && ListedIn(skill) <= listed
    ensures Inv(CloseSkill(t, skill, cur), tops, w', listed, 0)
    ensures w'.at.Keys == w.at.Keys + {[skill.name, "SKILL.md"]}
  {
    var l := [skill.name, "SKILL.md"];
    SkillMdLocation(skill.name);
    assert l in ListedIn(skill);
    w' := AddFileInv(t, tops, w, listed, cur, cur, l, 0);
    var t' := Add(t, cur, Join(l, '/'), File(Join(l, '/'), 0));
    assert CurOk(t', w', cur, skill.name) && skill.name !in t'.paths;
    NamedInv(t', tops, w', listed, cur, skill.name);
  }

  lemma SkillInv(t: Tree, tops: seq<nat>, w: Where, listed: set<Location>, skill: Skill) returns (w': Where)
    requires PrefixFree(listed) && Inv(t, tops, w, listed, 0)
    requires skill.name !in t.paths && '/' !in skill.name && ListedIn(skill) <= listed
    ensures Inv(AddSkill(t, skill), tops + [t.next], w', listed, 0)
    ensures w.at.Keys + ListedIn(skill) <= w'.at.Keys
    ensures forall k :: k in AddSkill(t, skill).paths ==> k in t.paths || '/' in k || k == skill.name
  {
    OpenInv(t, tops, w, listed, skill.name);
    var t1, w1 := OpenSkill(t), Placed(w, t.next, [skill.name], 1);
    var w2 := FilesInv(t1, tops + [t.next], w1, listed, t.next, skill, |skill.files|);
    var t2 := AddFiles(t1, skill, t.next, |skill.files|);
    w' := CloseInv(t2, tops + [t.next], w2, listed, t.next, skill);
  }

  /** No skill from the `n`-th on has its name in the path map. */
  ghost predicate NamesUnused(skills: seq<Skill>, n: nat, t: Tree) {
    forall i :: n <= i < |skills| ==> skills[i].name !in t.paths
  }

  lemma {:induction false} SkillsInv(skills: seq<Skill>, listed: set<Location>, n: nat) returns (w: Where)
    requires n <= |skills| && DistinctNames(skills) && PrefixFree(listed) && ListedUpTo(skills, n) <= listed
    ensures Inv(AddSkills(skills, n).0, AddSkills(skills, n).1, w, listed, 0)
    ensures ListedUpTo(skills, n) <= w.at.Keys
    ensures NamesUnused(skills, n, AddSkills(skills, n).0)
  {
    if n == 0 {
      w := Where(map[1 := []], map[], map[]);
    } else {
      var w1 := SkillsInv(skills, listed, n - 1);
      var (t, tops) := AddSkills(skills, n - 1);
      w := SkillInv(t, tops, w1, listed, skills[n - 1]);
    }
  }

  /** The finished tree, with the root's children in place. */
  lemma MountedInv(skills: seq<Skill>) returns (w: Where)
    requires Mountable(skills)
    ensures Inv(Mounted(skills), Children(Mounted(skills), 1), w, Listed(skills), 0)
    ensures Listed(skills) <= w.at.Keys
  {
    w := SkillsInv(skills, Listed(skills), |skills|);
    var (t, tops) := AddSkills(skills, |skills|);
    var t' := Mounted(skills);
    forall i | 1 <= i < t'.next ensures NodeOk(t', tops, w, Listed(skills), 0, i) {
      assert NodeOk(t, tops, w, Listed(skills), 0, i);
      assert Kids(t', tops, i) == Kids(t, tops, i);
    }
  }

  // ------------------------------------------------------------- one parent

  /**
   * Every inode but the root is listed by exactly one directory, exactly once, and that
   * directory has a smaller number; so following parents always ends at the root.
   */
  lemma OneSmallerParent(skills: seq<Skill>, i: nat) returns (p: nat, index: nat)
    requires Mountable(skills) && i in Mounted(skills).nodes && i != 1
    ensures var t := Mounted(skills);
            && p < i && p in t.nodes && t.nodes[p].Dir?
            && index < |Children(t, p)| && Children(t, p)[index] == i
            && forall q, a :: q in t.nodes && 0 <= a < |Children(t, q)| && Children(t, q)[a] == i ==>
                 q == p && a == index
  {
    var t := Mounted(skills);
    var w := MountedInv(skills);
    var tops, listed := Children(t, 1), Listed(skills);
    assert NodeOk(t, tops, w, listed, 0, i);
    p := w.parent[i];
    assert NodeOk(t, tops, w, listed, 0, p);
    index :| 0 <= index < |Children(t, p)| && Children(t, p)[index] == i;
    forall q, a | q in t.nodes && 0 <= a < |Children(t, q)| && Children(t, q)[a] == i ensures q == p && a == index {
      assert NodeOk(t, tops, w, listed, 0, q);
      assert Kids(t, tops, q) == Children(t, q);
    }
  }

  // --------------------------------------------------- lookup by components

  /** A child is found by the last component of its location, whatever the iteration order. */
  lemma BaseNameIsLast(t: Tree, tops: seq<nat>, w: Where, listed: set<Location>, order: seq<string>, i: nat)
    requires Inv(t, tops, w, listed, 0) && IsOrder(t, order) && 1 < i < t.next
    ensures i in w.loc && w.loc[i] != [] && BaseName(t, order, i) == Some(w.loc[i][|w.loc[i]| - 1])
  {
    assert NodeOk(t, tops, w, listed, 0, i);
    SplitJoin(w.loc[i], '/');
    if t.nodes[i].Dir? {
      assert Join(w.loc[i], '/') in order;
    }
  }

  lemma DirsAreUnique(t: Tree, tops: seq<nat>, w: Where, listed: set<Location>, i: nat, j: nat)
    requires Inv(t, tops, w, listed, 0) && 1 <= i < t.next && 1 <= j < t.next
    requires i in t.nodes && j in t.nodes && t.nodes[i].Dir? && t.nodes[j].Dir?
    requires i in w.loc && j in w.loc && w.loc[i] == w.loc[j]
    ensures i == j
  {
    assert NodeOk(t, tops, w, listed, 0, i);
    assert NodeOk(t, tops, w, listed, 0, j);
  }

  /** The node on the way to `i` that lies `d` components deep. */
  lemma {:induction false} Ancestor(t: Tree, tops: seq<nat>, w: Where, listed: set<Location>, i: nat, d: nat)
      returns (j: nat)
    requires Inv(t, tops, w, listed, 0) && 1 < i < t.next && i in w.loc && 0 < d <= |w.loc[i]|
    ensures 1 < j <= i && j in w.loc && w.loc[j] == w.loc[i][..d]
    decreases i
  {
    assert NodeOk(t, tops, w, listed, 0, i);
    if d == |w.loc[i]| {
      j := i;
    } else {
      var p := w.parent[i];
      assert NodeOk(t, tops, w, listed, 0, p);
      j := Ancestor(t, tops, w, listed, p, d);
      assert w.loc[p][..d] == w.loc[i][..d];
    }
  }

  /** A child found by a name lies one component, that name, below its directory. */
  lemma KidLocation(t: Tree, w: Where, listed: set<Location>, order: seq<string>, i: nat, c: nat, name: string)
    requires Inv(t, Children(t, 1), w, listed, 0) && IsOrder(t, order) && 1 <= i < t.next && i in w.loc
    requires c in Children(t, i) && BaseName(t, order, c) == Some(name)
    ensures 1 < c < t.next && c in w.loc && w.loc[c] == w.loc[i] + [name]
  {
    assert NodeOk(t, Children(t, 1), w, listed, 0, i);
    assert Kids(t, Children(t, 1), i) == Children(t, i);
    assert NodeOk(t, Children(t, 1), w, listed, 0, c);
    BaseNameIsLast(t, Children(t, 1), w, listed, order, c);
  }

  /** A directory on the way to an added file has a child with the next component's name. */
  lemma HasKid(t: Tree, w: Where, listed: set<Location>, order: seq<string>, i: nat, l: Location, d: nat)
      returns (j: nat)
    requires Inv(t, Children(t, 1), w, listed, 0) && IsOrder(t, order)
    requires l in w.at && d < |l|
    requires 1 <= i < t.next && i in t.nodes && t.nodes[i].Dir? && i in w.loc && w.loc[i] == l[..d]
    ensures j in Children(t, i) && BaseName(t, order, j) == Some(l[d])
  {
    var tops := Children(t, 1);
    j := Ancestor(t, tops, w, listed, w.at[l], d + 1);
    assert NodeOk(t, tops, w, listed, 0, j);
    assert w.loc[j][..d] == l[..d];
    DirsAreUnique(t, tops, w, listed, i, w.parent[j]);
    BaseNameIsLast(t, tops, w, listed, order, j);
  }

  /** One lookup on the way to a listed file goes one component down. */
  lemma LookupDescends(t: Tree, w: Where, listed: set<Location>, order: seq<string>, i: nat, l: Location, d: nat)
      returns (c: nat)
    requires Inv(t, Children(t, 1), w, listed, 0) && IsOrder(t, order)
    requires l in w.at && d < |l|
    requires 1 <= i < t.next && i in t.nodes && t.nodes[i].Dir? && i in w.loc && w.loc[i] == l[..d]
    ensures FirstNamed(t, order, Children(t, i), l[d]) == Some(c)
    ensures 1 < c < t.next && c in w.loc && w.loc[c] == l[..d + 1]
  {
    var j := HasKid(t, w, listed, order, i, l, d);
    var found := FirstNamed(t, order, Children(t, i), l[d]);
    c := found.value;
    KidLocation(t, w, listed, order, i, c, l[d]);
    assert l[..d + 1] == l[..d] + [l[d]];
  }

  lemma {:induction false} WalkReaches(t: Tree, w: Where, listed: set<Location>, order: seq<string>, i: nat,
                                       l: Location, d: nat)
      returns (f: nat)
    requires PrefixFree(listed) && Inv(t, Children(t, 1), w, listed, 0) && IsOrder(t, order)
    requires l in w.at && l in listed && d < |l|
    requires 1 <= i < t.next && i in t.nodes && t.nodes[i].Dir? && i in w.loc && w.loc[i] == l[..d]
    ensures Resolve(t, order, i, l[d..]) == Some(f)
    ensures f in t.nodes && t.nodes[f].File? && t.nodes[f].relPath == Join(l, '/')
    decreases |l| - d
  {
    var c := LookupDescends(t, w, listed, order, i, l, d);
    assert NodeOk(t, Children(t, 1), w, listed, 0, c);
    assert l[d..][0] == l[d] && l[d..][1..] == l[d + 1..];
    if d + 1 == |l| {
      assert l[..d + 1] == l;
      f := c;
    } else {
      assert l[..d + 1] < l;
      f := WalkReaches(t, w, listed, order, c, l, d + 1);
    }
  }

  lemma {:induction false} WalkLocation(t: Tree, w: Where, listed: set<Location>, order: seq<string>, i: nat,
                                        path: Location)
    requires Inv(t, Children(t, 1), w, listed, 0) && IsOrder(t, order) && 1 <= i < t.next && i in w.loc
    requires Resolve(t, order, i, path).Some?
    ensures var f := Resolve(t, order, i, path).value;
            1 <= f < t.next && f in w.loc && w.loc[f] == w.loc[i] + path
    decreases |path|
  {
    if path != [] {
      var c := FirstNamed(t, order, Children(t, i), path[0]).value;
      KidLocation(t, w, listed, order, i, c, path[0]);
      WalkLocation(t, w, listed, order, c, path[1..]);
      assert w.loc[i] + [path[0]] + path[1..] == w.loc[i] + path;
    }
  }

  /** Looking up a listed path from the root reaches a file that fetches exactly that path. */
  lemma ListedResolves(skills: seq<Skill>, order: seq<string>, l: Location) returns (f: nat)
    requires Mountable(skills) && IsOrder(Mounted(skills), order) && l in Listed(skills)
    ensures var t := Mounted(skills);
            && Resolve(t, order, 1, l) == Some(f)
            && f in t.nodes && t.nodes[f].File? && t.nodes[f].relPath == Join(l, '/')
  {
    var t := Mounted(skills);
    var w := MountedInv(skills);
    assert NodeOk(t, Children(t, 1), w, Listed(skills), 0, 1);
    assert NodeOk(t, Children(t, 1), w, Listed(skills), 0, w.at[l]);
    f := WalkReaches(t, w, Listed(skills), order, 1, l, 0);
    assert l[0..] == l;
  }

  /** And nothing else resolves: a file only under a listed path, a directory only above one. */
  lemma OnlyListedResolves(skills: seq<Skill>, order: seq<string>, path: Location, f: nat)
    requires Mountable(skills) && IsOrder(Mounted(skills), order) && path != []
    requires Resolve(Mounted(skills), order, 1, path) == Some(f)
    ensures f in Mounted(skills).nodes
    ensures Mounted(skills).nodes[f].File? <==> path in Listed(skills)
    ensures Mounted(skills).nodes[f].Dir? <==> Leads(Listed(skills), path)
  {
    var t := Mounted(skills);
    var w := MountedInv(skills);
    assert NodeOk(t, Children(t, 1), w, Listed(skills), 0, 1);
    WalkLocation(t, w, Listed(skills), order, 1, path);
    assert NodeOk(t, Children(t, 1), w, Listed(skills), 0, f);
    assert [] + path == path;
  }

  // ------------------------------------------- prefix-freeness is necessary

  ghost predicate ReachesFile(t: Tree, order: seq<string>, l: Location) {
    var r := Resolve(t, order, 1, l);
    l != [] && r.Some? && r.value in t.nodes && t.nodes[r.value].File? && t.nodes[r.value].relPath == Join(l, '/')
  }

  lemma {:induction false} ResolveAppend(t: Tree, order: seq<string>, i: nat, a: Location, b: Location)
    requires Resolve(t, order, i, a).Some?
    ensures Resolve(t, order, i, a + b) == Resolve(t, order, Resolve(t, order, i, a).value, b)
    decreases |a|
  {
    if a == [] {
      assert a + b == b;
    } else {
      var c := FirstNamed(t, order, Children(t, i), a[0]).value;
      assert (a + b)[0] == a[0] && (a + b)[1..] == a[1..] + b;
      ResolveAppend(t, order, c, a[1..], b);
    }
  }

  /** With distinct skill names, all listed paths can be opened exactly when none is a prefix of another. */
  lemma AllResolveIffPrefixFree(skills: seq<Skill>, order: seq<string>)
    requires DistinctNames(skills) && IsOrder(Mounted(skills), order)
    ensures PrefixFree(Listed(skills)) <==> forall l :: l in Listed(skills) ==> ReachesFile(Mounted(skills), order, l)
  {
    var t, listed := Mounted(skills), Listed(skills);
    if PrefixFree(listed) {
      forall l | l in listed ensures ReachesFile(t, order, l) {
        var w := MountedInv(skills);
        assert NodeOk(t, Children(t, 1), w, listed, 0, w.at[l]);
        var f := ListedResolves(skills, order, l);
      }
    } else {
      var a, b :| a in listed && b in listed && a < b;
      if ReachesFile(t, order, a) {
        assert b == a + b[|a|..];
        ResolveAppend(t, order, 1, a, b[|a|..]);
        assert Resolve(t, order, 1, b) == None;
      }
      assert !ReachesFile(t, order, a) || !ReachesFile(t, order, b);
    }
  }

  // ------------------------------------------------ a listing with a prefix

  /** A skill that lists a file `a` and a file `a/b` below it. */
  function Overlapping(name: string, a: string, b: string): Skill {
    Skill(name, [FileInfo(a, 1), FileInfo(a + "/" + b, 2)])
  }

  lemma SplitPair(a: string, b: string)
    requires '/' !in a && '/' !in b
    ensures Split(a, '/') == [a] && Split(a + "/" + b, '/') == [a, b]
  {
    SplitJoin([a], '/');
    SplitJoin([a, b], '/');
    assert [a, b][1..] == [b];
    assert Join([b], '/') == b;
    assert Join([a, b], '/') == a + ['/'] + Join([b], '/');
  }

  /** The tree after the two files: the second one finds the first where it looks for a directory. */
  lemma OverlappingFiles(name: string, a: string, b: string) returns (t: Tree)
    requires '/' !in name && '/' !in a && '/' !in b
    ensures t == AddFiles(OpenSkill(NewTree()), Overlapping(name, a, b), 2, 2) && t.next == 5
    ensures t.nodes == map[1 := Dir([]), 2 := Dir([3]), 3 := File(name + "/" + a, 1),
                           4 := File(name + "/" + (a + "/" + b), 2)]
    ensures forall k :: k in t.paths ==> t.paths[k] == 3 || t.paths[k] == 4
  {
    SplitPair(a, b);
    var skill, t0 := Overlapping(name, a, b), OpenSkill(NewTree());
    assert t0.nodes == map[1 := Dir([]), 2 := Dir([])];
    var t1 := AddFile(t0, skill, skill.files[0], 2);
    assert t1 == Add(t0, 2, name + "/" + a, File(name + "/" + a, 1));
    assert t0.nodes[2].children + [3] == [3];
    assert t1.nodes == map[1 := Dir([]), 2 := Dir([3]), 3 := File(name + "/" + a, 1)];
    t := AddFile(t1, skill, skill.files[1], 2);
    assert [a, b][..1] == [a] && Join([a], '/') == a;
    assert t == AddParts(t1, name, skill.files[1], [a, b], 1, 3);
    assert t == Add(t1, 3, name + "/" + (a + "/" + b), File(name + "/" + (a + "/" + b), 2));
    assert AddFiles(t0, skill, 2, 0) == t0;
    assert AddFiles(t0, skill, 2, 1) == t1;
  }

  lemma OverlappingTree(name: string, a: string, b: string)
    requires '/' !in name && '/' !in a && '/' !in b
    ensures var t := Mounted([Overlapping(name, a, b)]);
            && Children(t, 1) == [2] && Children(t, 2) == [3, 5]
            && 2 in t.nodes && t.nodes[2].Dir? && 3 in t.nodes && t.nodes[3] == File(name + "/" + a, 1)
            && name in t.paths && forall k :: k in t.paths ==> (t.paths[k] == 2 <==> k == name)
  {
    var skill := Overlapping(name, a, b);
    var t2 := OverlappingFiles(name, a, b);
    var t3 := CloseSkill(t2, skill, 2);
    assert AddSkill(NewTree(), skill) == t3;
    assert AddSkills([skill], 0) == (NewTree(), []);
    assert AddSkills([skill], 1) == (t3, [] + [2]);
    assert Children(t3, 2) == [3] + [5];
  }

  /** The path below the file is listed, and whatever the names are it cannot be opened. */
  lemma PrefixHidesFile(name: string, a: string, b: string, order: seq<string>)
    requires '/' !in name && '/' !in a && '/' !in b && IsOrder(Mounted([Overlapping(name, a, b)]), order)
    ensures [name, a, b] in Listed([Overlapping(name, a, b)]) && DistinctNames([Overlapping(name, a, b)])
    ensures Resolve(Mounted([Overlapping(name, a, b)]), order, 1, [name, a, b]) == None
  {
    var skill := Overlapping(name, a, b);
    var t := Mounted([skill]);
    SplitPair(a, b);
    SplitPair(name, a);
    OverlappingTree(name, a, b);
    assert FileLocation(name, skill.files[1]) == [name, a, b];
    assert FileLocation(name, skill.files[1]) in FileLocations(skill, 2);
    assert ListedUpTo([skill], 1) == ListedUpTo([skill], 0) + ListedIn(skill);
    assert name in order && KeyOf(t.paths, order, 2) == Some(name);
    assert BaseName(t, order, 2) == Some(name) && BaseName(t, order, 3) == Some(a);
    assert FirstNamed(t, order, [2], name) == Some(2) && FirstNamed(t, order, [3, 5], a) == Some(3);
    assert [name, a, b][1..] == [a, b] && [a, b][1..] == [b];
    assert Resolve(t, order, 3, [b]) == None;
    assert Resolve(t, order, 2, [a, b]) == None;
  }

  // ---------------------------------------------------------------- sizes

  /** The node is a listed file with its listed size, or a SKILL.md, whose size is fetched on read. */
  ghost predicate ListedFile(skills: seq<Skill>, relPath: string, size: nat) {
    exists s :: s in skills &&
      (IsSkillMd(s, relPath, size) || exists f :: f in s.files && IsFileOf(s, f, relPath, size))
  }

  predicate IsSkillMd(s: Skill, relPath: string, size: nat) {
    relPath == s.name + "/SKILL.md" && size == 0
  }

  predicate IsFileOf(s: Skill, f: FileInfo, relPath: string, size: nat) {
    relPath == s.name + "/" + f.path && size == f.size
  }

  ghost predicate FilesAreListed(skills: seq<Skill>, t: Tree) {
    forall i :: i in t.nodes && t.nodes[i].File? ==> ListedFile(skills, t.nodes[i].relPath, t.nodes[i].size)
  }

  lemma AddListed(skills: seq<Skill>, t: Tree, parent: nat, path: string, node: Node)
    requires FilesAreListed(skills, t) && (node.File? ==> ListedFile(skills, node.relPath, node.size))
    ensures FilesAreListed(skills, Add(t, parent, path, node))
  {
  }

  lemma {:induction false} PartsListed(skills: seq<Skill>, t: Tree, skill: Skill, file: FileInfo, i: nat, parent: nat)
    requires FilesAreListed(skills, t) && skill in skills && file in skill.files && i < |Split(file.path, '/')|
    ensures FilesAreListed(skills, AddParts(t, skill.name, file, Split(file.path, '/'), i, parent))
    decreases |Split(file.path, '/')| - i
  {
    var parts := Split(file.path, '/');
    var dirPath := skill.name + "/" + Join(parts[..i + 1], '/');
    if i == |parts| - 1 {
      assert IsFileOf(skill, file, skill.name + "/" + file.path, file.size);
      AddListed(skills, t, parent, skill.name + "/" + file.path, File(skill.name + "/" + file.path, file.size));
    } else if dirPath in t.paths {
      PartsListed(skills, t, skill, file, i + 1, t.paths[dirPath]);
    } else {
      AddListed(skills, t, parent, dirPath, Dir([]));
      PartsListed(skills, Add(t, parent, dirPath, Dir([])), skill, file, i + 1, t.next);
    }
  }

  lemma {:induction false} FilesListed(skills: seq<Skill>, t: Tree, skill: Skill, inode: nat, n: nat)
    requires FilesAreListed(skills, t) && skill in skills && n <= |skill.files|
    ensures FilesAreListed(skills, AddFiles(t, skill, inode, n))
  {
    if n > 0 {
      FilesListed(skills, t, skill, inode, n - 1);
      PartsListed(skills, AddFiles(t, skill, inode, n - 1), skill, skill.files[n - 1], 0, inode);
    }
  }

  lemma {:induction false} SkillsListed(skills: seq<Skill>, n: nat)
    requires n <= |skills|
    ensures FilesAreListed(skills, AddSkills(skills, n).0)
  {
    if n > 0 {
      SkillsListed(skills, n - 1);
      var t, skill := AddSkills(skills, n - 1).0, skills[n - 1];
      assert FilesAreListed(skills, OpenSkill(t));
      FilesListed(skills, OpenSkill(t), skill, t.next, |skill.files|);
      var t' := AddFiles(OpenSkill(t), skill, t.next, |skill.files|);
      var md := skill.name + "/SKILL.md";
      assert IsSkillMd(skill, md, 0);
      AddListed(skills, t', t.next, md, File(md, 0));
    }
  }

  /** Whatever is listed, every file of the tree has the path and the size of a listed file, or is a SKILL.md. */
  lemma MountedFilesAreListed(skills: seq<Skill>)
    ensures FilesAreListed(skills, Mounted(skills))
  {
    SkillsListed(skills, |skills|);
  }
}
