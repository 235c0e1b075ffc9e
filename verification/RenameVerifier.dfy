/**
 The Python-AST backend of the rename verifier: rewrite the new name back to the old one in the
 after tree, compare with the before tree, and count residual uses of the old name.
 */
module RenameVerifier {
  import opened Sequences
  import opened WordSubstitution
  import opened Options

  // ---- Syntax trees ------------------------------------------------------------------------

  /** The node classes the renamer treats specially; every other class is `Other`. */
  datatype Kind =
    | Name | FunctionDef | AsyncFunctionDef | ClassDef | Attribute | Arg
    | Alias | Global | Nonlocal | Other

  /** `idents` holds all identifiers that are fields of the node, in field order, also those of classes
      without a visitor: keyword arguments, exception handlers, match captures, type parameters, the
      module of an import-from.  Everything else that is not a child node (the name of the class,
      constants, which optional fields are present) is in `payload`. */
  datatype Tree = Tree(kind: Kind, idents: seq<string>, payload: string, children: seq<Tree>)

  /** Classes with a visitor that substitutes in their identifiers. */
  predicate Rewrites(k: Kind) { !k.Other? }

  /** Classes whose children are visited.  The annotation under an `Arg` is not. */
  predicate Descends(k: Kind) {
    k.FunctionDef? || k.AsyncFunctionDef? || k.ClassDef? || k.Attribute? || k.Other?
  }

  /** Classes whose identifier the residual count looks at. */
  predicate Indexed(k: Kind) {
    k.Name? || k.FunctionDef? || k.AsyncFunctionDef? || k.ClassDef? || k.Attribute? || k.Arg?
  }

  function RenameAll(idents: seq<string>, from: Identifier, to: Identifier): (r: seq<string>)
    ensures |r| == |idents|
    ensures forall i :: 0 <= i < |r| ==> r[i] == Rename(idents[i], from, to)
  {
    seq(|idents|, i requires 0 <= i < |idents| => Rename(idents[i], from, to))
  }

  /** The tree after one pass of the renamer. */
  function Rewrite(t: Tree, from: Identifier, to: Identifier): Tree
    decreases t, 1
  {
    Tree(t.kind,
         if Rewrites(t.kind) then RenameAll(t.idents, from, to) else t.idents,
         t.payload,
         if Descends(t.kind) then RewriteForest(t.children, from, to) else t.children)
  }

  function RewriteForest(ts: seq<Tree>, from: Identifier, to: Identifier): (r: seq<Tree>)
    ensures |r| == |ts|
    ensures forall i :: 0 <= i < |ts| ==> r[i] == Rewrite(ts[i], from, to)
    decreases ts, 0
  {
    seq(|ts|, i requires 0 <= i < |ts| => Rewrite(ts[i], from, to))
  }

  /** A mutable syntax tree, as the renamer edits it in place. */
  class AstNode {
    const kind: Kind
    var idents: seq<string>
    const payload: string
    const children: seq<AstNode>
    ghost const repr: set<AstNode>

    ghost predicate Valid()
      decreases repr
    {
      && this in repr
      && (forall i :: 0 <= i < |children| ==>
            children[i].repr <= repr && this !in children[i].repr && children[i].Valid())
      && (forall i, j :: 0 <= i < j < |children| ==> children[i].repr !! children[j].repr)
    }

    constructor (kind: Kind, idents: seq<string>, payload: string, children: seq<AstNode>)
      requires forall i :: 0 <= i < |children| ==> children[i].Valid()
      requires forall i, j :: 0 <= i < j < |children| ==> children[i].repr !! children[j].repr
      ensures Valid() && this.kind == kind && this.idents == idents
      ensures this.payload == payload && this.children == children
      ensures repr == {this} + set i, n | 0 <= i < |children| && n in children[i].repr :: n
    {
      this.kind, this.idents, this.payload, this.children := kind, idents, payload, children;
      repr := {this} + set i, n | 0 <= i < |children| && n in children[i].repr :: n;
    }

    /** The immutable tree this node currently stands for. */
    ghost function View(): Tree
      requires Valid()
      reads repr
      decreases repr
    {
      Tree(kind, idents, payload,
           seq(|children|, i requires 0 <= i < |children| reads repr => children[i].View()))
    }

    /** Assigns the identifier fields. */
    method Substitute(from: Identifier, to: Identifier)
      requires Valid()
      modifies this
      ensures View() == old(View()).(idents := RenameAll(old(idents), from, to))
    {
      idents := RenameAll(idents, from, to);
    }

    /** The renamer's visit: substitutes in this node, then visits the children. */
    method Visit(from: Identifier, to: Identifier)
      requires Valid()
      modifies repr
      ensures View() == Rewrite(old(View()), from, to)
      decreases repr, 1
    {
      if Rewrites(kind) {
        Substitute(from, to);
      }
      if Descends(kind) {
        VisitChildren(from, to);
      }
    }

    method VisitChildren(from: Identifier, to: Identifier)
      requires Valid()
      modifies repr - {this}
      ensures View() == old(View()).(children := RewriteForest(old(View()).children, from, to))
      decreases repr, 0
    {
      ghost var before := View().children;
      var n := 0;
      while n < |children|
        invariant 0 <= n <= |children|
        invariant forall i :: 0 <= i < n ==> children[i].View() == Rewrite(before[i], from, to)
        invariant forall i :: n <= i < |children| ==> children[i].View() == before[i]
      {
        label Before:
        children[n].Visit(from, to);
        forall i | 0 <= i < |children| && i != n ensures children[i].View() == old@Before(children[i].View()) {
          assert children[i].repr !! children[n].repr;
        }
        n := n + 1;
      }
      assert View().children == RewriteForest(before, from, to);
    }
  }

  // ---- Residual uses -----------------------------------------------------------------------

  /** Uses of `name` as a whole identifier anywhere in the tree, annotations included. */
  function Uses(t: Tree, name: string): nat
    decreases t, 1
  {
    (if Indexed(t.kind) && t.idents == [name] then 1 else 0) + UsesIn(t.children, name)
  }

  function UsesIn(ts: seq<Tree>, name: string): nat
    decreases ts, 0
  {
    if ts == [] then 0 else Uses(ts[0], name) + UsesIn(ts[1..], name)
  }

  function Nodes(t: Tree): nat
    decreases t, 1
  {
    1 + NodesIn(t.children)
  }

  function NodesIn(ts: seq<Tree>): nat
    decreases ts, 0
  {
    if ts == [] then 0 else Nodes(ts[0]) + NodesIn(ts[1..])
  }

  lemma {:induction false} ForestsAdd(a: seq<Tree>, b: seq<Tree>, name: string)
    ensures UsesIn(a + b, name) == UsesIn(a, name) + UsesIn(b, name)
    ensures NodesIn(a + b) == NodesIn(a) + NodesIn(b)
    decreases |a|
  {
    if a == [] {
      assert a + b == b;
    } else {
      ForestsAdd(a[1..], b, name);
      assert (a + b)[1..] == a[1..] + b;
    }
  }

  /** Breadth-first walk of one file with a counter, as `ast.walk` and the index loop do it. */
  method CountUses(tree: Tree, name: string) returns (count: nat)
    ensures count == Uses(tree, name)
  {
    count := 0;
    var todo := [tree];
    assert todo[1..] == [];
    while todo != []
      invariant count + UsesIn(todo, name) == Uses(tree, name)
      decreases NodesIn(todo)
    {
      var node := todo[0];
      ForestsAdd(todo[1..], node.children, name);
      assert NodesIn(todo) == 1 + NodesIn(node.children) + NodesIn(todo[1..]);
      todo := todo[1..] + node.children;
      if Indexed(node.kind) && node.idents == [name] {
        count := count + 1;
      }
    }
  }

  // ---- Repositories ------------------------------------------------------------------------

  /** A file as the verifier sees it: unreadable, not parseable, or parsed. */
  datatype Source = Unreadable | SyntaxError(text: string) | Module(tree: Tree)

  type Repo = map<string, Source>

  /** The order in which sorted paths are visited. */
  ghost predicate Enumerates(paths: seq<string>, keys: set<string>) {
    && (forall p :: p in paths <==> p in keys)
    && (forall i, j :: 0 <= i < j < |paths| ==> paths[i] != paths[j])
  }

  /** The dump of a file after rewriting; unparseable files dump as their own text. */
  function DumpNormalized(src: Source, old': Identifier, new': Identifier): Source {
    if src.Module? then Module(Rewrite(src.tree, new', old')) else src
  }

  predicate Drifts(before: Repo, after: Repo, rel: string, old': Identifier, new': Identifier) {
    || rel !in before || rel !in after
    || before[rel].Unreadable? || after[rel].Unreadable?
    || DumpNormalized(before[rel], old', old') != DumpNormalized(after[rel], old', new')
  }

  function Select(paths: seq<string>, keep: string -> bool): seq<string> {
    if paths == [] then []
    else (if keep(paths[0]) then [paths[0]] else []) + Select(paths[1..], keep)
  }

  lemma {:induction false} SelectMembers(paths: seq<string>, keep: string -> bool)
    ensures forall p :: p in Select(paths, keep) <==> p in paths && keep(p)
    ensures Select(paths, keep) == [] <==> forall p :: p in paths ==> !keep(p)
  {
    if paths != [] {
      SelectMembers(paths[1..], keep);
    }
  }

  lemma {:induction false} SelectSnoc(paths: seq<string>, p: string, keep: string -> bool)
    ensures Select(paths + [p], keep) == Select(paths, keep) + if keep(p) then [p] else []
    decreases |paths|
  {
    if paths == [] {
      assert paths + [p] == [p];
    } else {
      SelectSnoc(paths[1..], p, keep);
      assert (paths + [p])[1..] == paths[1..] + [p] && (paths + [p])[0] == paths[0];
      var head, last := if keep(paths[0]) then [paths[0]] else [], if keep(p) then [p] else [];
      assert head + (Select(paths[1..], keep) + last) == (head + Select(paths[1..], keep)) + last;
    }
  }

  function DriftList(before: Repo, after: Repo, rels: seq<string>, old': Identifier, new': Identifier): seq<string> {
    Select(rels, rel => Drifts(before, after, rel, old', new'))
  }

  method FallbackAstDrift(before: Repo, after: Repo, rels: seq<string>, old': Identifier, new': Identifier)
    returns (drift: seq<string>)
    requires Enumerates(rels, before.Keys + after.Keys)
    ensures drift == DriftList(before, after, rels, old', new')
  {
    drift := [];
    var drifts := rel => Drifts(before, after, rel, old', new');
    var i := 0;
    while i < |rels|
      invariant 0 <= i <= |rels|
      invariant drift == Select(rels[..i], drifts)
    {
      var rel := rels[i];
      SelectSnoc(rels[..i], rel, drifts);
      assert rels[..i + 1] == rels[..i] + [rel];
      i := i + 1;
      if rel !in before || rel !in after {
        drift := drift + [rel];
        continue;
      }
      if before[rel].Unreadable? || after[rel].Unreadable? {
        drift := drift + [rel];
        continue;
      }
      var b := DumpNormalized(before[rel], old', old');
      var a := DumpNormalized(after[rel], old', new');
      if b != a {
        drift := drift + [rel];
      }
    }
    assert rels[..i] == rels;
  }

  predicate HasResidual(after: Repo, rel: string, name: string) {
    rel in after && after[rel].Module? && Uses(after[rel].tree, name) > 0
  }

  function FileUses(repo: Repo, rel: string, name: string): nat {
    if rel in repo && repo[rel].Module? then Uses(repo[rel].tree, name) else 0
  }

  /** The count of one file; one that cannot be parsed is passed over. */
  method CountFile(src: Source, name: string) returns (count: nat)
    ensures count == if src.Module? then Uses(src.tree, name) else 0
  {
    count := 0;
    if src.Module? {
      count := CountUses(src.tree, name);
    }
  }

  function UsesInRepo(repo: Repo, paths: seq<string>, name: string): nat {
    if paths == [] then 0
    else UsesInRepo(repo, Init(paths), name) + FileUses(repo, Last(paths), name)
  }

  function ResidualFiles(repo: Repo, paths: seq<string>, name: string): seq<string> {
    Select(paths, rel => HasResidual(repo, rel, name))
  }

  lemma NextFile(repo: Repo, paths: seq<string>, i: nat, name: string)
    requires i < |paths|
    ensures ResidualFiles(repo, paths[..i + 1], name)
         == ResidualFiles(repo, paths[..i], name) + if HasResidual(repo, paths[i], name) then [paths[i]] else []
    ensures UsesInRepo(repo, paths[..i + 1], name)
         == UsesInRepo(repo, paths[..i], name) + FileUses(repo, paths[i], name)
  {
    assert paths[..i + 1] == paths[..i] + [paths[i]];
    assert paths[..i + 1][..i] == paths[..i];
    SelectSnoc(paths[..i], paths[i], rel => HasResidual(repo, rel, name));
  }

  /** The files whose count is positive, and the sum of all counts. */
  method IdentifierIndex(repo: Repo, paths: seq<string>, name: string)
    returns (files: seq<string>, total: nat)
    requires Enumerates(paths, repo.Keys)
    ensures files == ResidualFiles(repo, paths, name)
    ensures total == UsesInRepo(repo, paths, name)
    ensures total > 0 <==> files != []
  {
    files, total := [], 0;
    var i := 0;
    while i < |paths|
      invariant 0 <= i <= |paths|
      invariant files == ResidualFiles(repo, paths[..i], name)
      invariant total == UsesInRepo(repo, paths[..i], name)
      invariant total > 0 <==> files != []
    {
      var rel := paths[i];
      NextFile(repo, paths, i, name);
      var count := CountFile(repo[rel], name);
      if count > 0 {
        files, total := files + [rel], total + count;
      }
      i := i + 1;
    }
    assert paths[..i] == paths;
  }

  // ---- The verdict -------------------------------------------------------------------------

  datatype Verdict = RV | RD | RT

  /** What the verifier accepts when the tests do not fail. */
  ghost predicate Accepts(before: Option<Repo>, after: Repo, old': Identifier, new': Identifier) {
    && (before.Some? ==> forall rel :: rel in before.value.Keys + after.Keys ==>
                           !Drifts(before.value, after, rel, old', new'))
    && (forall rel :: rel in after ==> !HasResidual(after, rel, old'))
  }

  /** It accepts exactly when both file lists come out empty. */
  lemma AcceptsExactly(before: Option<Repo>, after: Repo, rels: seq<string>, paths: seq<string>,
                       old': Identifier, new': Identifier)
    requires before.Some? ==> Enumerates(rels, before.value.Keys + after.Keys)
    requires Enumerates(paths, after.Keys)
    ensures Accepts(before, after, old', new') <==>
              && (before.Some? ==> DriftList(before.value, after, rels, old', new') == [])
              && ResidualFiles(after, paths, old') == []
  {
    SelectMembers(paths, rel => HasResidual(after, rel, old'));
    if before.Some? {
      SelectMembers(rels, rel => Drifts(before.value, after, rel, old', new'));
    }
  }

  /** Test failure first, then drift, then residual uses of the old name. */
  method Verify(before: Option<Repo>, after: Repo, rels: seq<string>, paths: seq<string>,
                old': Identifier, new': Identifier, tests: Option<bool>)
    returns (verdict: Verdict, files: seq<string>)
    requires before.Some? ==> Enumerates(rels, before.value.Keys + after.Keys)
    requires Enumerates(paths, after.Keys)
    ensures verdict == RT <==> tests == Some(false)
    ensures verdict == RV <==> tests != Some(false) && Accepts(before, after, old', new')
    ensures verdict == RV ==> files == []
    ensures verdict == RD ==> files != []
    ensures var drift := if before.Some? then DriftList(before.value, after, rels, old', new') else [];
            files == if drift != [] then drift
                     else if verdict == RD then ResidualFiles(after, paths, old')
                     else []
  {
    var residualFiles, residual := IdentifierIndex(after, paths, old');
    files := [];
    AcceptsExactly(before, after, rels, paths, old', new');
    if before.Some? {
      files := FallbackAstDrift(before.value, after, rels, old', new');
    }
    if tests == Some(false) {
      verdict := RT;
    } else if files != [] {
      verdict := RD;
    } else if residual > 0 {
      verdict, files := RD, residualFiles;
    } else {
      verdict := RV;
    }
  }

  // ---- Soundness ---------------------------------------------------------------------------

  /** The after tree is the before tree up to word renames at the visited identifiers: same shape,
      same payloads, untouched annotations. */
  ghost predicate OnlyRenamed(b: Tree, a: Tree, old': Identifier, new': Identifier)
    decreases b
  {
    && a.kind == b.kind && a.payload == b.payload
    && |a.idents| == |b.idents| && |a.children| == |b.children|
    && (if Rewrites(b.kind) then
          forall i :: 0 <= i < |b.idents| ==> WordRename(b.idents[i], a.idents[i], old', new')
        else a.idents == b.idents)
    && (if Descends(b.kind) then
          forall i :: 0 <= i < |b.children| ==> OnlyRenamed(b.children[i], a.children[i], old', new')
        else a.children == b.children)
  }

  lemma {:induction false} RewriteBackMeansOnlyRenamed(b: Tree, a: Tree, old': Identifier, new': Identifier)
    requires Rewrite(a, new', old') == b
    ensures OnlyRenamed(b, a, old', new')
    decreases a
  {
    if Rewrites(b.kind) {
      forall i | 0 <= i < |b.idents| ensures WordRename(b.idents[i], a.idents[i], old', new') {
        AcceptedIsWordRename(b.idents[i], a.idents[i], old', new');
      }
    }
    if Descends(b.kind) {
      forall i | 0 <= i < |b.children| ensures OnlyRenamed(b.children[i], a.children[i], old', new') {
        RewriteBackMeansOnlyRenamed(b.children[i], a.children[i], old', new');
      }
    }
  }

  lemma {:induction false} SelfRewriteIsIdentity(t: Tree, name: Identifier)
    ensures Rewrite(t, name, name) == t
    decreases t
  {
    forall i | 0 <= i < |t.children| ensures Rewrite(t.children[i], name, name) == t.children[i] {
      SelfRewriteIsIdentity(t.children[i], name);
    }
    assert RewriteForest(t.children, name, name) == t.children;
    assert RenameAll(t.idents, name, name) == t.idents;
  }

  /** Every indexed single-identifier node of `b` spelled `old` is spelled `new` in `a`, at every
      node reachable through visited children. */
  ghost predicate OldBecameNew(b: Tree, a: Tree, old': Identifier, new': Identifier)
    decreases b
  {
    && (Indexed(b.kind) && b.idents == [old'] ==> a.idents == [new'])
    && (Descends(b.kind) ==>
          && |a.children| == |b.children|
          && forall i :: 0 <= i < |b.children| ==> OldBecameNew(b.children[i], a.children[i], old', new'))
  }

  lemma {:induction false} UsesOfChild(ts: seq<Tree>, i: nat, name: string)
    requires i < |ts|
    ensures Uses(ts[i], name) <= UsesIn(ts, name)
    decreases |ts|
  {
    if i > 0 {
      UsesOfChild(ts[1..], i - 1, name);
    }
  }

  lemma {:induction false} NoResidualMeansOldBecameNew(b: Tree, a: Tree, old': Identifier, new': Identifier)
    requires OnlyRenamed(b, a, old', new') && Uses(a, old') == 0
    ensures OldBecameNew(b, a, old', new')
    decreases b
  {
    if Indexed(b.kind) && b.idents == [old'] {
      WholeNameBecomesNew(a.idents[0], old', new');
      assert a.idents == [a.idents[0]];
    }
    if Descends(b.kind) {
      forall i | 0 <= i < |b.children| ensures OldBecameNew(b.children[i], a.children[i], old', new') {
        UsesOfChild(a.children, i, old');
        NoResidualMeansOldBecameNew(b.children[i], a.children[i], old', new');
      }
    }
  }

  /** Acceptance with a before tree is sound: same files, and each pair of files is either the same
      unparseable text or a pair of trees that differ by the declared rename only, in which every
      visited use of the old name became the new one. */
  lemma AcceptedRenameIsSound(before: Repo, after: Repo, old': Identifier, new': Identifier)
    requires Accepts(Some(before), after, old', new')
    ensures before.Keys == after.Keys
    ensures forall rel :: rel in before ==>
              || (before[rel].SyntaxError? && after[rel] == before[rel])
              || (before[rel].Module? && after[rel].Module?
                  && OnlyRenamed(before[rel].tree, after[rel].tree, old', new')
                  && OldBecameNew(before[rel].tree, after[rel].tree, old', new')
                  && Uses(after[rel].tree, old') == 0)
  {
    forall rel | rel in before.Keys + after.Keys
      ensures rel in before && rel in after
      ensures (before[rel].SyntaxError? && after[rel] == before[rel])
           || (before[rel].Module? && after[rel].Module?
               && OnlyRenamed(before[rel].tree, after[rel].tree, old', new')
               && OldBecameNew(before[rel].tree, after[rel].tree, old', new')
               && Uses(after[rel].tree, old') == 0)
    {
      assert !Drifts(before, after, rel, old', new');
      assert !HasResidual(after, rel, old');
      if before[rel].Module? {
        SelfRewriteIsIdentity(before[rel].tree, old');
        RewriteBackMeansOnlyRenamed(before[rel].tree, after[rel].tree, old', new');
        NoResidualMeansOldBecameNew(before[rel].tree, after[rel].tree, old', new');
      }
    }
  }

  // ---- Completeness ------------------------------------------------------------------------

  /** Every visited identifier is restored by the reverse rename. */
  predicate CleanTree(t: Tree, old': Identifier, new': Identifier)
    decreases t
  {
    && (Rewrites(t.kind) ==>
          forall i :: 0 <= i < |t.idents| ==> Restorable(t.idents[i], old', new'))
    && (Descends(t.kind) ==>
          forall i :: 0 <= i < |t.children| ==> CleanTree(t.children[i], old', new'))
  }

  lemma {:induction false} RewriteInverse(t: Tree, old': Identifier, new': Identifier)
    requires old' != new'
    ensures Rewrite(Rewrite(t, old', new'), new', old') == t <==> CleanTree(t, old', new')
    decreases t
  {
    var r := Rewrite(t, old', new');
    var back := Rewrite(r, new', old');
    if Rewrites(t.kind) {
      forall i | 0 <= i < |t.idents|
        ensures back.idents[i] == t.idents[i] <==> Restorable(t.idents[i], old', new')
      {
        RenameInverse(t.idents[i], old', new');
      }
      assert back.idents == t.idents <==> forall i :: 0 <= i < |t.idents| ==> back.idents[i] == t.idents[i];
    }
    if Descends(t.kind) {
      forall i | 0 <= i < |t.children|
        ensures back.children[i] == t.children[i] <==> CleanTree(t.children[i], old', new')
      {
        RewriteInverse(t.children[i], old', new');
      }
      assert back.children == t.children <==> forall i :: 0 <= i < |t.children| ==> back.children[i] == t.children[i];
    }
  }

  function RenameRepo(repo: Repo, old': Identifier, new': Identifier): Repo {
    map rel | rel in repo ::
      match repo[rel] case Module(tree) => Module(Rewrite(tree, old', new')) case src => src
  }

  /** A repository renamed at the visited positions shows no drift in a file exactly when the file
      was readable and the new name can be read there only where the rename wrote it. */
  lemma RenamedRepoDriftsExactly(repo: Repo, rel: string, old': Identifier, new': Identifier)
    requires old' != new'
    requires rel in repo
    ensures !Drifts(repo, RenameRepo(repo, old', new'), rel, old', new')
       <==> !repo[rel].Unreadable? && (repo[rel].Module? ==> CleanTree(repo[rel].tree, old', new'))
  {
    if repo[rel].Module? {
      SelfRewriteIsIdentity(repo[rel].tree, old');
      RewriteInverse(repo[rel].tree, old', new');
    }
  }

  /** Hence the drift list of such a rename is empty exactly when all files are like that. */
  lemma RenamedRepoIsDriftFreeExactly(repo: Repo, rels: seq<string>, old': Identifier, new': Identifier)
    requires old' != new'
    requires Enumerates(rels, repo.Keys)
    ensures DriftList(repo, RenameRepo(repo, old', new'), rels, old', new') == [] <==>
              forall rel :: rel in repo ==>
                !repo[rel].Unreadable? && (repo[rel].Module? ==> CleanTree(repo[rel].tree, old', new'))
  {
    var after := RenameRepo(repo, old', new');
    SelectMembers(rels, rel => Drifts(repo, after, rel, old', new'));
    forall rel | rel in repo
      ensures !Drifts(repo, after, rel, old', new') <==>
                !repo[rel].Unreadable? && (repo[rel].Module? ==> CleanTree(repo[rel].tree, old', new'))
    {
      RenamedRepoDriftsExactly(repo, rel, old', new');
    }
  }

  /** `name` is not a word of any visited identifier. */
  predicate FreshIn(t: Tree, name: Identifier)
    decreases t
  {
    && (Rewrites(t.kind) ==> forall i :: 0 <= i < |t.idents| ==> !HasWord(false, t.idents[i], name))
    && (Descends(t.kind) ==> forall i :: 0 <= i < |t.children| ==> FreshIn(t.children[i], name))
  }

  lemma {:induction false} FreshIsClean(t: Tree, old': Identifier, new': Identifier)
    requires Alike(old', new') && !OverlapsItself(new')
    requires FreshIn(t, new')
    ensures CleanTree(t, old', new')
    decreases t
  {
    if Rewrites(t.kind) {
      forall i | 0 <= i < |t.idents| ensures Restorable(t.idents[i], old', new') {
        FreshNameIsRestorableExactly(t.idents[i], old', new');
      }
    }
    if Descends(t.kind) {
      forall i | 0 <= i < |t.children| ensures CleanTree(t.children[i], old', new') {
        FreshIsClean(t.children[i], old', new');
      }
    }
  }

  /** In particular for a fresh new name that cannot overlap itself. */
  lemma FreshRenameHasNoDrift(repo: Repo, rels: seq<string>, old': Identifier, new': Identifier)
    requires Alike(old', new') && old' != new' && !OverlapsItself(new')
    requires Enumerates(rels, repo.Keys)
    requires forall rel :: rel in repo ==>
               !repo[rel].Unreadable? && (repo[rel].Module? ==> FreshIn(repo[rel].tree, new'))
    ensures DriftList(repo, RenameRepo(repo, old', new'), rels, old', new') == []
  {
    forall rel | rel in repo && repo[rel].Module? ensures CleanTree(repo[rel].tree, old', new') {
      FreshIsClean(repo[rel].tree, old', new');
    }
    RenamedRepoIsDriftFreeExactly(repo, rels, old', new');
  }

  // ---- Renames that did not happen ---------------------------------------------------------

  /** Rewriting leaves a tree alone exactly when the name is no word of a visited identifier. */
  lemma {:induction false} RewriteFixesExactly(t: Tree, from: Identifier, to: Identifier)
    requires from != to
    ensures Rewrite(t, from, to) == t <==> FreshIn(t, from)
    decreases t
  {
    var r := Rewrite(t, from, to);
    if Rewrites(t.kind) {
      forall i | 0 <= i < |t.idents| ensures r.idents[i] == t.idents[i] <==> !HasWord(false, t.idents[i], from) {
        UnchangedExactly(false, t.idents[i], from, to);
      }
      assert r.idents == t.idents <==> forall i :: 0 <= i < |t.idents| ==> r.idents[i] == t.idents[i];
    }
    if Descends(t.kind) {
      forall i | 0 <= i < |t.children| ensures r.children[i] == t.children[i] <==> FreshIn(t.children[i], from) {
        RewriteFixesExactly(t.children[i], from, to);
      }
      assert r.children == t.children <==> forall i :: 0 <= i < |t.children| ==> r.children[i] == t.children[i];
    }
  }

  /** A repository in which nothing was renamed is accepted exactly when all files are readable, the
      new name is no word of a visited identifier, and the old name is no indexed identifier. */
  lemma UntouchedIsAcceptedExactly(repo: Repo, old': Identifier, new': Identifier)
    requires old' != new'
    ensures Accepts(Some(repo), repo, old', new') <==>
              forall rel :: rel in repo ==>
                && !repo[rel].Unreadable?
                && (repo[rel].Module? ==> FreshIn(repo[rel].tree, new') && Uses(repo[rel].tree, old') == 0)
  {
    forall rel | rel in repo
      ensures !Drifts(repo, repo, rel, old', new') && !HasResidual(repo, rel, old') <==>
                && !repo[rel].Unreadable?
                && (repo[rel].Module? ==> FreshIn(repo[rel].tree, new') && Uses(repo[rel].tree, old') == 0)
    {
      if repo[rel].Module? {
        SelfRewriteIsIdentity(repo[rel].tree, old');
        RewriteFixesExactly(repo[rel].tree, new', old');
      }
    }
    assert repo.Keys + repo.Keys == repo.Keys;
  }

  /** The residual count does not look at import aliases, so an import left under its old name is
      accepted without any rename having happened. */
  lemma UnrenamedImportIsAccepted()
    ensures var repo: Repo := map["m.py" := Module(Tree(Other, [], "Module", [Tree(Alias, ["a"], "", [])]))];
            Accepts(Some(repo), repo, "a", "b")
  {
    var leaf := Tree(Alias, ["a"], "", []);
    var tree := Tree(Other, [], "Module", [leaf]);
    var name: string, other: Identifier := "a", "b";
    assert name[1..] == "" && name[0] != other[0];
    assert !HasWord(false, name, other);
    assert FreshIn(leaf, "b") && FreshIn(tree, "b");
    assert UsesIn([leaf], "a") == 0;
    assert Uses(tree, "a") == 0;
    UntouchedIsAcceptedExactly(map["m.py" := Module(tree)], "a", "b");
  }

  // ---- Renames carried out everywhere ------------------------------------------------------

  /** A rename carried out everywhere: at all identifiers of all classes, annotations of arguments
      included. */
  function FullRename(t: Tree, old': Identifier, new': Identifier): Tree
    decreases t, 1
  {
    Tree(t.kind, RenameAll(t.idents, old', new'), t.payload, FullRenameForest(t.children, old', new'))
  }

  function FullRenameForest(ts: seq<Tree>, old': Identifier, new': Identifier): (r: seq<Tree>)
    ensures |r| == |ts|
    ensures forall i :: 0 <= i < |ts| ==> r[i] == FullRename(ts[i], old', new')
    decreases ts, 0
  {
    seq(|ts|, i requires 0 <= i < |ts| => FullRename(ts[i], old', new'))
  }

  /** The name is a word of some identifier of the tree, wherever it stands. */
  predicate Mentions(t: Tree, name: Identifier)
    decreases t
  {
    || (exists i :: 0 <= i < |t.idents| && HasWord(false, t.idents[i], name))
    || (exists i :: 0 <= i < |t.children| && Mentions(t.children[i], name))
  }

  /** The name is a word of an identifier that the renamer does not reach: one of a class without a
      visitor, or one below a node whose children are not visited. */
  predicate MentionedOutOfReach(t: Tree, name: Identifier)
    decreases t
  {
    || (!Rewrites(t.kind) && exists i :: 0 <= i < |t.idents| && HasWord(false, t.idents[i], name))
    || (exists i :: 0 <= i < |t.children| &&
          if Descends(t.kind) then MentionedOutOfReach(t.children[i], name) else Mentions(t.children[i], name))
  }

  lemma RenameAllFixesExactly(idents: seq<string>, old': Identifier, new': Identifier)
    requires old' != new'
    ensures RenameAll(idents, old', new') == idents <==>
              !(exists i :: 0 <= i < |idents| && HasWord(false, idents[i], old'))
  {
    var r := RenameAll(idents, old', new');
    forall i | 0 <= i < |idents| ensures r[i] == idents[i] <==> !HasWord(false, idents[i], old') {
      UnchangedExactly(false, idents[i], old', new');
    }
    assert r == idents <==> forall i :: 0 <= i < |idents| ==> r[i] == idents[i];
  }

  lemma {:induction false} FullRenameFixesExactly(t: Tree, old': Identifier, new': Identifier)
    requires old' != new'
    ensures FullRename(t, old', new') == t <==> !Mentions(t, old')
    decreases t
  {
    var f := FullRename(t, old', new');
    RenameAllFixesExactly(t.idents, old', new');
    forall i | 0 <= i < |t.children|
      ensures f.children[i] == t.children[i] <==> !Mentions(t.children[i], old')
    {
      FullRenameFixesExactly(t.children[i], old', new');
    }
    assert f.children == t.children <==> forall i :: 0 <= i < |t.children| ==> f.children[i] == t.children[i];
  }

  /** Rewriting back restores a tree that was renamed everywhere exactly when the visited
      identifiers are clean and no identifier out of reach mentions the old name. */
  lemma {:induction false} FullRenameRestoresExactly(t: Tree, old': Identifier, new': Identifier)
    requires old' != new'
    ensures Rewrite(FullRename(t, old', new'), new', old') == t
       <==> CleanTree(t, old', new') && !MentionedOutOfReach(t, old')
    decreases t
  {
    var f := FullRename(t, old', new');
    var back := Rewrite(f, new', old');
    if Rewrites(t.kind) {
      forall i | 0 <= i < |t.idents|
        ensures back.idents[i] == t.idents[i] <==> Restorable(t.idents[i], old', new')
      {
        RenameInverse(t.idents[i], old', new');
      }
      assert back.idents == t.idents <==> forall i :: 0 <= i < |t.idents| ==> back.idents[i] == t.idents[i];
    } else {
      RenameAllFixesExactly(t.idents, old', new');
    }
    forall i | 0 <= i < |t.children|
      ensures back.children[i] == t.children[i] <==>
                if Descends(t.kind) then
                  CleanTree(t.children[i], old', new') && !MentionedOutOfReach(t.children[i], old')
                else !Mentions(t.children[i], old')
    {
      if Descends(t.kind) {
        FullRenameRestoresExactly(t.children[i], old', new');
      } else {
        FullRenameFixesExactly(t.children[i], old', new');
      }
    }
    assert back.children == t.children <==> forall i :: 0 <= i < |t.children| ==> back.children[i] == t.children[i];
  }

  lemma {:induction false} UsesInExactly(ts: seq<Tree>, name: string)
    ensures UsesIn(ts, name) > 0 <==> exists i :: 0 <= i < |ts| && Uses(ts[i], name) > 0
    decreases |ts|
  {
    if ts != [] {
      UsesInExactly(ts[1..], name);
      assert forall i :: 1 <= i < |ts| ==> ts[i] == ts[1..][i - 1];
    }
  }

  /** The rename everywhere turns some indexed identifier into the old name. */
  predicate Becomes(t: Tree, old': Identifier, new': Identifier)
    decreases t
  {
    || (Indexed(t.kind) && |t.idents| == 1 && Rename(t.idents[0], old', new') == old')
    || exists i :: 0 <= i < |t.children| && Becomes(t.children[i], old', new')
  }

  /** A residual use is left exactly then. */
  lemma {:induction false} FullRenameLeavesUsesExactly(t: Tree, old': Identifier, new': Identifier)
    ensures Uses(FullRename(t, old', new'), old') > 0 <==> Becomes(t, old', new')
    decreases t
  {
    var f := FullRename(t, old', new');
    UsesInExactly(f.children, old');
    forall i | 0 <= i < |t.children|
      ensures Uses(f.children[i], old') > 0 <==> Becomes(t.children[i], old', new')
    {
      FullRenameLeavesUsesExactly(t.children[i], old', new');
    }
    if |t.idents| == 1 && Indexed(t.kind) {
      assert f.idents == [Rename(t.idents[0], old', new')];
    }
  }

  function FullRenameRepo(repo: Repo, old': Identifier, new': Identifier): Repo {
    map rel | rel in repo ::
      match repo[rel] case Module(tree) => Module(FullRename(tree, old', new')) case src => src
  }

  /** A rename carried out everywhere is accepted exactly when all files are readable, the visited
      identifiers are clean, no identifier out of reach mentions the old name, and no indexed
      identifier becomes the old name. */
  lemma FullRenameAcceptedExactly(repo: Repo, old': Identifier, new': Identifier)
    requires old' != new'
    ensures Accepts(Some(repo), FullRenameRepo(repo, old', new'), old', new') <==>
              forall rel :: rel in repo ==>
                && !repo[rel].Unreadable?
                && (repo[rel].Module? ==>
                      && CleanTree(repo[rel].tree, old', new') && !MentionedOutOfReach(repo[rel].tree, old')
                      && !Becomes(repo[rel].tree, old', new'))
  {
    var after := FullRenameRepo(repo, old', new');
    assert repo.Keys + after.Keys == repo.Keys;
    forall rel | rel in repo
      ensures !Drifts(repo, after, rel, old', new') && !HasResidual(after, rel, old') <==>
                && !repo[rel].Unreadable?
                && (repo[rel].Module? ==>
                      && CleanTree(repo[rel].tree, old', new') && !MentionedOutOfReach(repo[rel].tree, old')
                      && !Becomes(repo[rel].tree, old', new'))
    {
      if repo[rel].Module? {
        SelfRewriteIsIdentity(repo[rel].tree, old');
        FullRenameRestoresExactly(repo[rel].tree, old', new');
        FullRenameLeavesUsesExactly(repo[rel].tree, old', new');
      }
    }
  }

  /** A clean identifier becomes the old name exactly when it is the old name rewritten back, and
      that can be undone; the new name must then be a word of the old one. */
  lemma IdentifierBecomesExactly(ident: string, old': Identifier, new': Identifier)
    requires old' != new' && Restorable(ident, old', new')
    ensures Rename(ident, old', new') == old' <==> ident == Rename(old', new', old') && Restorable(old', new', old')
    ensures Rename(ident, old', new') == old' ==> HasWord(false, old', new')
  {
    RenameInverse(ident, old', new');
    RenameInverse(old', new', old');
    UnchangedExactly(false, old', new', old');
    assert old'[|old'|..] == "";
    assert Substitute(false, old', old', new') == new';
  }

  lemma {:induction false} UnmentionedDoesNotBecome(t: Tree, old': Identifier, new': Identifier)
    requires old' != new' && !Mentions(t, old')
    ensures !Becomes(t, old', new')
    decreases t
  {
    if Indexed(t.kind) && |t.idents| == 1 {
      UnchangedExactly(false, t.idents[0], old', new');
      assert HasWord(false, old', old');
    }
    forall i | 0 <= i < |t.children| ensures !Becomes(t.children[i], old', new') {
      UnmentionedDoesNotBecome(t.children[i], old', new');
    }
  }

  /** So for a new name that is no word of the old one the last condition always holds. */
  lemma {:induction false} BecomingNeedsNewInOld(t: Tree, old': Identifier, new': Identifier)
    requires old' != new' && CleanTree(t, old', new') && !MentionedOutOfReach(t, old')
    requires !HasWord(false, old', new')
    ensures !Becomes(t, old', new')
    decreases t
  {
    if Indexed(t.kind) && |t.idents| == 1 {
      IdentifierBecomesExactly(t.idents[0], old', new');
    }
    forall i | 0 <= i < |t.children| ensures !Becomes(t.children[i], old', new') {
      if Descends(t.kind) {
        BecomingNeedsNewInOld(t.children[i], old', new');
      } else {
        UnmentionedDoesNotBecome(t.children[i], old', new');
      }
    }
  }

  /** The old name is used, as a whole identifier, where the renamer does not go. */
  predicate UsedOutOfReach(t: Tree, name: string)
    decreases t
  {
    exists i :: 0 <= i < |t.children| &&
      if Descends(t.kind) then UsedOutOfReach(t.children[i], name) else Uses(t.children[i], name) > 0
  }

  lemma {:induction false} UseOutOfReachStays(b: Tree, a: Tree, old': Identifier, new': Identifier)
    requires OnlyRenamed(b, a, old', new') && UsedOutOfReach(b, old')
    ensures Uses(a, old') > 0
    decreases b
  {
    var i :| 0 <= i < |b.children| &&
      if Descends(b.kind) then UsedOutOfReach(b.children[i], old') else Uses(b.children[i], old') > 0;
    if Descends(b.kind) {
      UseOutOfReachStays(b.children[i], a.children[i], old', new');
    }
    UsesOfChild(a.children, i, old');
  }

  /** The annotation gap for all after trees: if the old name is used in an argument annotation of
      the before tree, no rename whatsoever is accepted. */
  lemma AnnotatedUseIsNeverAccepted(before: Repo, after: Repo, rel: string, old': Identifier, new': Identifier)
    requires rel in before && before[rel].Module? && UsedOutOfReach(before[rel].tree, old')
    ensures !Accepts(Some(before), after, old', new')
  {
    if Accepts(Some(before), after, old', new') {
      AcceptedRenameIsSound(before, after, old', new');
      UseOutOfReachStays(before[rel].tree, after[rel].tree, old', new');
      assert false;
    }
  }

  // ---- What no accepted rename touches -----------------------------------------------------

  /** All identifiers of a tree, in order. */
  function AllIdents(t: Tree): seq<string>
    decreases t, 1
  {
    t.idents + AllIdentsIn(t.children)
  }

  function AllIdentsIn(ts: seq<Tree>): seq<string>
    decreases ts, 0
  {
    if ts == [] then [] else AllIdents(ts[0]) + AllIdentsIn(ts[1..])
  }

  /** The identifiers that the renamer does not reach, in order. */
  function Unreached(t: Tree): seq<string>
    decreases t, 1
  {
    (if Rewrites(t.kind) then [] else t.idents)
    + (if Descends(t.kind) then UnreachedIn(t.children) else AllIdentsIn(t.children))
  }

  function UnreachedIn(ts: seq<Tree>): seq<string>
    decreases ts, 0
  {
    if ts == [] then [] else Unreached(ts[0]) + UnreachedIn(ts[1..])
  }

  lemma {:induction false} UnreachedStays(b: Tree, a: Tree, old': Identifier, new': Identifier)
    requires OnlyRenamed(b, a, old', new')
    ensures Unreached(a) == Unreached(b)
    decreases b, 1
  {
    if Descends(b.kind) {
      UnreachedInStays(b.children, a.children, old', new');
    }
  }

  lemma {:induction false} UnreachedInStays(bs: seq<Tree>, as': seq<Tree>, old': Identifier, new': Identifier)
    requires |as'| == |bs| && forall i :: 0 <= i < |bs| ==> OnlyRenamed(bs[i], as'[i], old', new')
    ensures UnreachedIn(as') == UnreachedIn(bs)
    decreases bs, 0
  {
    if bs != [] {
      UnreachedStays(bs[0], as'[0], old', new');
      UnreachedInStays(bs[1..], as'[1..], old', new');
    }
  }

  /** Whatever was done, an accepted after tree has the same identifiers out of reach as the before
      tree: a rename that touches a keyword argument, a handler or capture name, or an argument
      annotation is never accepted. */
  lemma AcceptedKeepsUnreached(before: Repo, after: Repo, old': Identifier, new': Identifier)
    requires Accepts(Some(before), after, old', new')
    ensures forall rel :: rel in before && before[rel].Module? ==>
              rel in after && after[rel].Module? && Unreached(after[rel].tree) == Unreached(before[rel].tree)
  {
    AcceptedRenameIsSound(before, after, old', new');
    forall rel | rel in before && before[rel].Module?
      ensures Unreached(after[rel].tree) == Unreached(before[rel].tree)
    {
      UnreachedStays(before[rel].tree, after[rel].tree, old', new');
    }
  }

  // ---- Renames at the visited places only --------------------------------------------------

  /** A rename at the visited places leaves or creates an indexed use of the old name. */
  predicate KeepsUse(t: Tree, old': Identifier, new': Identifier)
    decreases t
  {
    || (Indexed(t.kind) && |t.idents| == 1 && Rename(t.idents[0], old', new') == old')
    || (exists i :: 0 <= i < |t.children| &&
          if Descends(t.kind) then KeepsUse(t.children[i], old', new') else Uses(t.children[i], old') > 0)
  }

  lemma {:induction false} RewriteKeepsUseExactly(t: Tree, old': Identifier, new': Identifier)
    ensures Uses(Rewrite(t, old', new'), old') > 0 <==> KeepsUse(t, old', new')
    decreases t
  {
    var r := Rewrite(t, old', new');
    UsesInExactly(r.children, old');
    forall i | 0 <= i < |t.children|
      ensures Uses(r.children[i], old') > 0 <==>
                if Descends(t.kind) then KeepsUse(t.children[i], old', new') else Uses(t.children[i], old') > 0
    {
      if Descends(t.kind) {
        RewriteKeepsUseExactly(t.children[i], old', new');
      }
    }
    if |t.idents| == 1 && Indexed(t.kind) {
      assert r.idents == [Rename(t.idents[0], old', new')];
    }
  }

  /** Completeness of the verdict: such a rename is accepted exactly when all files are readable, the
      visited identifiers are clean, and no indexed use of the old name is left. */
  lemma RenamedRepoAcceptedExactly(repo: Repo, old': Identifier, new': Identifier)
    requires old' != new'
    ensures Accepts(Some(repo), RenameRepo(repo, old', new'), old', new') <==>
              forall rel :: rel in repo ==>
                && !repo[rel].Unreadable?
                && (repo[rel].Module? ==>
                      CleanTree(repo[rel].tree, old', new') && !KeepsUse(repo[rel].tree, old', new'))
  {
    var after := RenameRepo(repo, old', new');
    assert repo.Keys + after.Keys == repo.Keys;
    forall rel | rel in repo
      ensures !Drifts(repo, after, rel, old', new') && !HasResidual(after, rel, old') <==>
                && !repo[rel].Unreadable?
                && (repo[rel].Module? ==>
                      CleanTree(repo[rel].tree, old', new') && !KeepsUse(repo[rel].tree, old', new'))
    {
      RenamedRepoDriftsExactly(repo, rel, old', new');
      if repo[rel].Module? {
        RewriteKeepsUseExactly(repo[rel].tree, old', new');
      }
    }
  }

  lemma OneLetterNames()
    ensures HasWord(false, "a", "a") && !HasWord(false, "a", "b")
    ensures Restorable("a", "a", "b") && Rename("a", "a", "b") == "b"
  {
    var name: string, other: Identifier := "a", "b";
    assert name[1..] == "" && name[0] != other[0];
    PlainInverseExactly(name, "a", "b");
    RenameInverse(name, "a", "b");
    assert Substitute(false, name, "a", "b") == "b" + Substitute(true, "", "a", "b");
  }

  /** A keyword argument that is renamed along with its parameter makes the verifier reject. */
  lemma RenamedKeywordIsRejected()
    ensures var repo: Repo := map["m.py" := Module(Tree(Other, ["a"], "keyword", []))];
            !Accepts(Some(repo), FullRenameRepo(repo, "a", "b"), "a", "b")
  {
    OneLetterNames();
    var call := Tree(Other, ["a"], "keyword", []);
    var repo: Repo := map["m.py" := Module(call)];
    assert call.idents[0] == "a" && MentionedOutOfReach(call, "a");
    assert repo["m.py"].tree == call;
    FullRenameAcceptedExactly(repo, "a", "b");
  }

  /** One that is left behind, when its parameter was renamed, passes. */
  lemma ForgottenKeywordIsAccepted()
    ensures var repo: Repo := map["m.py" := Module(Tree(Other, [], "Module",
                                    [Tree(Arg, ["a"], "", []), Tree(Other, ["a"], "keyword", [])]))];
            Accepts(Some(repo), RenameRepo(repo, "a", "b"), "a", "b")
  {
    OneLetterNames();
    var arg, call := Tree(Arg, ["a"], "", []), Tree(Other, ["a"], "keyword", []);
    var tree := Tree(Other, [], "Module", [arg, call]);
    assert CleanTree(arg, "a", "b") && CleanTree(call, "a", "b") && CleanTree(tree, "a", "b");
    assert !KeepsUse(arg, "a", "b") && !KeepsUse(call, "a", "b") && !KeepsUse(tree, "a", "b");
    RenamedRepoAcceptedExactly(map["m.py" := Module(tree)], "a", "b");
  }
}
