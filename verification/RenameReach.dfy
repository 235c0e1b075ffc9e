/**
 Which identifiers the rename verifier reaches, said by node classes and paths: the visitors named
 one by one, for every tree and every path from its root.
 */
module RenameReach {
  import opened Options
  import opened RenameVerifier
  import opened WordSubstitution

  /** The classes with a visitor. */
  const VISITORS: set<Kind> :=
    {Name, FunctionDef, AsyncFunctionDef, ClassDef, Attribute, Arg, Alias, Global, Nonlocal}

  /** The classes whose visitor does not go on to the children. */
  const DEAD_ENDS: set<Kind> := {Name, Arg, Alias, Global, Nonlocal}

  /** The classes that the residual count looks at. */
  const COUNTED: set<Kind> := {Name, FunctionDef, AsyncFunctionDef, ClassDef, Attribute, Arg}

  /** A way down from the root, by positions among the children. */
  type Path = seq<nat>

  predicate IsPath(t: Tree, path: Path)
    decreases |path|
  {
    path == [] || (path[0] < |t.children| && IsPath(t.children[path[0]], path[1..]))
  }

  function At(t: Tree, path: Path): Tree
    requires IsPath(t, path)
    decreases |path|
  {
    if path == [] then t else At(t.children[path[0]], path[1..])
  }

  /** No proper ancestor of the node is of a class with a dead end. */
  predicate Open(t: Tree, path: Path)
    requires IsPath(t, path)
    decreases |path|
  {
    path == [] || (t.kind !in DEAD_ENDS && Open(t.children[path[0]], path[1..]))
  }

  lemma ClassesExactly(k: Kind)
    ensures Rewrites(k) <==> k in VISITORS
    ensures Descends(k) <==> k !in DEAD_ENDS
  {}

  /** One node: its identifiers change if its class has a visitor, and its children are visited unless
      the class is a dead end. */
  lemma RewriteOfNode(t: Tree, from: Identifier, to: Identifier)
    ensures var after := Rewrite(t, from, to);
            && after.kind == t.kind && after.payload == t.payload
            && |after.idents| == |t.idents| && |after.children| == |t.children|
            && (forall i :: 0 <= i < |t.idents| ==>
                  after.idents[i] == if t.kind in VISITORS then Rename(t.idents[i], from, to) else t.idents[i])
            && (forall i :: 0 <= i < |t.children| ==>
                  after.children[i] == if t.kind in DEAD_ENDS then t.children[i] else Rewrite(t.children[i], from, to))
  {
    ClassesExactly(t.kind);
    var visited, goesOn := Rewrites(t.kind), Descends(t.kind);
    assert Rewrite(t, from, to).idents == if visited then RenameAll(t.idents, from, to) else t.idents;
    assert Rewrite(t, from, to).children == if goesOn then RewriteForest(t.children, from, to) else t.children;
  }

  /** At the end of a path stands the rewritten node, or the node itself below a dead end. */
  lemma {:induction false} RewriteAlongPath(t: Tree, path: Path, from: Identifier, to: Identifier)
    requires IsPath(t, path)
    ensures IsPath(Rewrite(t, from, to), path)
    ensures At(Rewrite(t, from, to), path)
         == if Open(t, path) then Rewrite(At(t, path), from, to) else At(t, path)
    decreases |path|
  {
    if path != [] {
      RewriteOfNode(t, from, to);
      if t.kind !in DEAD_ENDS {
        RewriteAlongPath(t.children[path[0]], path[1..], from, to);
      }
    }
  }

  /** The renamer changes exactly the identifiers of nodes that have a visitor and no dead end above
      them, each into its rename; class, payload and shape stay everywhere. */
  lemma RewriteReachesExactly(t: Tree, path: Path, from: Identifier, to: Identifier)
    requires IsPath(t, path)
    ensures IsPath(Rewrite(t, from, to), path)
    ensures var node, after := At(t, path), At(Rewrite(t, from, to), path);
            && after.kind == node.kind && after.payload == node.payload
            && |after.idents| == |node.idents| && |after.children| == |node.children|
            && forall i :: 0 <= i < |node.idents| ==>
                 after.idents[i] == if node.kind in VISITORS && Open(t, path) then Rename(node.idents[i], from, to)
                                    else node.idents[i]
  {
    RewriteAlongPath(t, path, from, to);
    RewriteOfNode(At(t, path), from, to);
  }

  /** A node of a counted class with the name as its only identifier. */
  predicate UsedAt(t: Tree, path: Path, name: string) {
    IsPath(t, path) && At(t, path).kind in COUNTED && At(t, path).idents == [name]
  }

  /** A use of the name is counted exactly when there is such a node anywhere in the tree. */
  lemma {:induction false} UsesExactly(t: Tree, name: string)
    ensures Uses(t, name) > 0 <==> exists path :: UsedAt(t, path, name)
    decreases t
  {
    UsesInExactly(t.children, name);
    forall i | 0 <= i < |t.children|
      ensures Uses(t.children[i], name) > 0 <==> exists path :: UsedAt(t.children[i], path, name)
    {
      UsesExactly(t.children[i], name);
    }
    if exists path :: UsedAt(t, path, name) {
      var path :| UsedAt(t, path, name);
      assert path != [] ==> UsedAt(t.children[path[0]], path[1..], name);
    }
    if t.kind in COUNTED && t.idents == [name] {
      assert UsedAt(t, [], name);
    } else if Uses(t, name) > 0 {
      var i: nat :| i < |t.children| && Uses(t.children[i], name) > 0;
      var path :| UsedAt(t.children[i], path, name);
      assert ([i] + path)[1..] == path;
      assert UsedAt(t, [i] + path, name);
    }
  }

  /** Names, attributes, functions, classes and calls nested in any way; arguments without annotation
      and nothing with identifiers that has no visitor. */
  predicate Ordinary(t: Tree)
    decreases t
  {
    match t.kind
    case Name => t.children == []
    case Arg => t.children == []
    case Alias => t.children == []
    case Global => t.children == []
    case Nonlocal => t.children == []
    case Other => t.idents == [] && forall i :: 0 <= i < |t.children| ==> Ordinary(t.children[i])
    case _ => forall i :: 0 <= i < |t.children| ==> Ordinary(t.children[i])
  }

  lemma {:induction false} OrdinaryIsReached(t: Tree, old': Identifier, new': Identifier)
    requires Plain(old') && Plain(new') && old' != new' && Ordinary(t) && !Mentions(t, new')
    ensures CleanTree(t, old', new') && !MentionedOutOfReach(t, old')
    decreases t
  {
    forall i | 0 <= i < |t.idents| ensures Restorable(t.idents[i], old', new') {
      PlainNamesAreSimple(new');
      PlainNamesAreSimple(old');
      FreshNameIsRestorableExactly(t.idents[i], old', new');
    }
    forall i | 0 <= i < |t.children|
      ensures CleanTree(t.children[i], old', new') && !MentionedOutOfReach(t.children[i], old')
    {
      OrdinaryIsReached(t.children[i], old', new');
    }
  }

  lemma {:induction false} PlainNameInPlain(p: bool, s: string, w: Identifier)
    requires (forall i :: 0 <= i < |s| ==> IsAlnum(s[i])) && HasWord(p, s, w)
    ensures !p && s == w
    decreases |s|
  {
    if StartsWord(p, s, w) {
      assert |s| == |w|;
      assert s == s[..|w|];
    } else {
      PlainNameInPlain(IsAlnum(s[0]), s[1..], w);
    }
  }

  /** An honest rename of such a program, to a plain name that occurs nowhere in it, is accepted. */
  lemma OrdinaryRenameIsAccepted(repo: Repo, old': Identifier, new': Identifier)
    requires Plain(old') && Plain(new') && old' != new'
    requires forall rel :: rel in repo ==>
               repo[rel].Module? && Ordinary(repo[rel].tree) && !Mentions(repo[rel].tree, new')
    ensures Accepts(Some(repo), FullRenameRepo(repo, old', new'), old', new')
  {
    if HasWord(false, old', new') {
      PlainNameInPlain(false, old', new');
    }
    forall rel | rel in repo
      ensures CleanTree(repo[rel].tree, old', new') && !MentionedOutOfReach(repo[rel].tree, old')
           && !Becomes(repo[rel].tree, old', new')
    {
      OrdinaryIsReached(repo[rel].tree, old', new');
      BecomingNeedsNewInOld(repo[rel].tree, old', new');
    }
    FullRenameAcceptedExactly(repo, old', new');
  }
}
