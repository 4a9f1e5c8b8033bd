/** The tree of keyboard macros.  A macro takes a sequence of pressed keysyms, its
    left-hand side, to presses and releases; the tree branches by keysym, so a
    node is named here by the keysyms on the path to it from the root. */
module KeyboardMacroTrie {
  import opened KeyboardEvents

  type Path = seq<Keysym>

  /** One keysym a macro presses or releases. */
  datatype Entry = Entry(key: Keysym, press: bool)

  datatype Branches = None | Some(keys: set<Keysym>)

  /** An inner node has branches, a leaf the entries of its macro; a node that has
      just been made has neither. */
  datatype Node = Node(branches: Branches, entries: seq<Entry>)

  type Trie = map<Path, Node>

  /** The accepted macros: left-hand sides and what they press and release. */
  type Macros = map<Path, seq<Entry>>

  datatype ReturnCode = Ok | Einval | Eexist

  const ROOT: Path := []
  const EMPTY: Trie := map[ROOT := Node(Some({}), [])]

  // ---------------------------------------------------------------- what a macro presses and releases

  /** The keysyms of the right-hand side that are not on the left. */
  function NewOnRight(lhs: seq<Keysym>, rhs: seq<Keysym>): seq<Entry> {
    if rhs == [] then []
    else
      var front, last := rhs[..|rhs| - 1], rhs[|rhs| - 1];
      NewOnRight(lhs, front) + if last in lhs then [] else [Entry(last, true)]
  }

  function Left(lhs: seq<Keysym>, rhs: seq<Keysym>): seq<Entry> {
    seq(|lhs|, i requires 0 <= i < |lhs| => Entry(lhs[i], lhs[i] in rhs))
  }

  function EntriesFor(lhs: seq<Keysym>, rhs: seq<Keysym>): seq<Entry> {
    Left(lhs, rhs) + NewOnRight(lhs, rhs)
  }

  predicate EndsInPress(entries: seq<Entry>) {
    entries != [] && entries[|entries| - 1].press
  }

  lemma {:induction false} NewOnRightEntries(lhs: seq<Keysym>, rhs: seq<Keysym>)
    ensures forall e :: e in NewOnRight(lhs, rhs) <==> e.press && e.key in rhs && e.key !in lhs
    ensures NewOnRight(lhs, rhs) == [] <==> forall key :: key in rhs ==> key in lhs
  {
    if rhs != [] {
      var front := rhs[..|rhs| - 1];
      NewOnRightEntries(lhs, front);
      assert rhs == front + [rhs[|rhs| - 1]];
    }
  }

  /** A macro releases the keysyms only on its left, and presses all those on its
      right; the last is a press iff the right adds a keysym or keeps the left's last. */
  lemma EntriesMeaning(lhs: seq<Keysym>, rhs: seq<Keysym>)
    requires lhs != []
    ensures forall e :: e in EntriesFor(lhs, rhs) <==>
      (if e.press then e.key in rhs else e.key in lhs && e.key !in rhs)
    ensures EndsInPress(EntriesFor(lhs, rhs)) <==>
      lhs[|lhs| - 1] in rhs || exists key :: key in rhs && key !in lhs
  {
    NewOnRightEntries(lhs, rhs);
    forall e ensures e in Left(lhs, rhs) <==> e.key in lhs && e.press == (e.key in rhs) {
      if e.key in lhs && e.press == (e.key in rhs) {
        var i :| 0 <= i < |lhs| && lhs[i] == e.key;
        assert Left(lhs, rhs)[i] == e;
      }
    }
    var right := NewOnRight(lhs, rhs);
    if right != [] {
      assert right[|right| - 1] in right;
    }
  }

  // ---------------------------------------------------------------- what the tree denotes

  /** Some accepted left-hand side starts with this path. */
  ghost predicate Starts(macros: Macros, p: Path) {
    exists lhs :: lhs in macros && p <= lhs
  }

  /** A left-hand side is a leaf with its macro's entries; any other node branches
      to exactly its children. */
  ghost predicate NodeOk(trie: Trie, macros: Macros, p: Path)
    requires p in trie
  {
    if p in macros then
      trie[p] == Node(None, macros[p]) && macros[p] != []
    else
      && trie[p].branches.Some? && trie[p].entries == []
      && forall key :: key in trie[p].branches.keys <==> p + [key] in trie
  }

  /** The tree of a set of macros: its nodes are the root and the paths that start
      an accepted left-hand side, its leaves are those left-hand sides. */
  ghost predicate Denotes(trie: Trie, macros: Macros) {
    && ROOT !in macros
    && (forall p :: p in trie <==> p == ROOT || Starts(macros, p))
    && (forall p :: p in trie ==> NodeOk(trie, macros, p))
  }

  /** No accepted left-hand side starts another. */
  ghost predicate PrefixFree(macros: Macros) {
    forall p, q :: p in macros && q in macros && p <= q ==> p == q
  }

  ghost predicate Clashes(macros: Macros, lhs: Path) {
    exists p :: p in macros && (p <= lhs || lhs <= p)
  }

  /** The answer to a new macro. */
  ghost function Verdict(macros: Macros, lhs: Path, rhs: seq<Keysym>): ReturnCode {
    if lhs == [] || rhs == [] then Einval
    else if !EndsInPress(EntriesFor(lhs, rhs)) then Einval
    else if Clashes(macros, lhs) then Eexist
    else Ok
  }

  ghost function Accept(macros: Macros, lhs: Path, rhs: seq<Keysym>): Macros {
    if Verdict(macros, lhs, rhs) == Ok then macros[lhs := EntriesFor(lhs, rhs)] else macros
  }

  lemma AcceptKeepsPrefixFree(macros: Macros, lhs: Path, rhs: seq<Keysym>)
    requires PrefixFree(macros)
    ensures PrefixFree(Accept(macros, lhs, rhs))
  {
  }

  // ---------------------------------------------------------------- adding a macro

  /** A prefix of a left-hand side, at most `i` keysyms long. */
  predicate On(lhs: Path, i: nat, p: Path) {
    |p| <= i <= |lhs| && p == lhs[..|p|]
  }

  function BranchKeys(trie: Trie, p: Path): set<Keysym> {
    if p in trie && trie[p].branches.Some? then trie[p].branches.keys else {}
  }

  /** The tree while a left-hand side is being followed into it, `i` keysyms deep. */
  ghost predicate Grown(before: Trie, trie: Trie, lhs: Path, i: nat) {
    && i <= |lhs|
    && (forall p :: p in trie <==> p in before || On(lhs, i, p))
    && (forall p :: p in before && !(On(lhs, i, p) && |p| < i) ==> trie[p] == before[p])
    && (forall p :: p in trie && On(lhs, i, p) && |p| < i ==>
          trie[p] == Node(Some(BranchKeys(before, p) + {lhs[|p|]}), []))
    && (lhs[..i] !in before ==> trie[lhs[..i]] == Node(None, []))
  }

  lemma PrefixPresent(trie: Trie, macros: Macros, p: Path, n: nat)
    requires Denotes(trie, macros) && p in trie && n <= |p|
    ensures p[..n] in trie
  {
    if p != ROOT {
      var lhs :| lhs in macros && p <= lhs;
      assert p[..n] <= lhs;
    }
  }

  lemma NodeAt(trie: Trie, macros: Macros, p: Path, key: Keysym)
    requires Denotes(trie, macros) && p in trie
    ensures p in macros ==> trie[p] == Node(None, macros[p]) && macros[p] != []
    ensures p !in macros ==> trie[p].branches.Some? && trie[p].entries == []
    ensures p !in macros ==> (key in trie[p].branches.keys <==> p + [key] in trie)
  {
    hide Starts;
  }

  lemma InnerUnchanged(before: Trie, trie: Trie, macros: Macros, lhs: Path, i: nat, n: nat)
    requires Denotes(before, macros) && Grown(before, trie, lhs, i) && lhs[..i] in before && n < i
    requires lhs[..n] !in macros
    ensures lhs[..n] in before && trie[lhs[..n]] == before[lhs[..n]]
  {
    hide Denotes;
    var p := lhs[..n];
    PrefixPresent(before, macros, lhs[..i], n);
    PrefixPresent(before, macros, lhs[..i], n + 1);
    assert lhs[..i][..n] == p && lhs[..i][..n + 1] == p + [lhs[n]];
    NodeAt(before, macros, p, lhs[n]);
    assert On(lhs, i, p) && p in trie;
    assert BranchKeys(before, p) + {lhs[n]} == before[p].branches.keys;
  }

  /** As long as the path was there before, nothing has been made. */
  lemma GrownNothing(before: Trie, trie: Trie, macros: Macros, lhs: Path, i: nat)
    requires Denotes(before, macros) && Grown(before, trie, lhs, i) && lhs[..i] in before
    requires forall n :: 0 <= n < i ==> lhs[..n] !in macros
    ensures trie == before
  {
    hide Denotes;
    forall p | p in trie ensures p in before && trie[p] == before[p] {
      if On(lhs, i, p) && |p| < i {
        InnerUnchanged(before, trie, macros, lhs, i, |p|);
      }
    }
    assert trie.Keys == before.Keys;
  }

  /** One keysym deeper: the branch and the child are made if they are not there. */
  function Deeper(trie: Trie, p: Path, key: Keysym): Trie
    requires p in trie
  {
    var keys := BranchKeys(trie, p);
    var trie1 := trie[p := trie[p].(branches := Some(keys + {key}))];
    if key in keys then trie1 else trie1[p + [key] := Node(None, [])]
  }

  /** One more prefix is on the way, and it is the longest. */
  lemma OnStep(lhs: Path, i: nat)
    requires i < |lhs|
    ensures forall q {:trigger On(lhs, i + 1, q)} :: On(lhs, i + 1, q) <==> On(lhs, i, q) || q == lhs[..i + 1]
    ensures forall q {:trigger On(lhs, i, q)} :: On(lhs, i, q) ==> |q| < i || q == lhs[..i]
    ensures !On(lhs, i, lhs[..i + 1]) && On(lhs, i, lhs[..i])
  {
  }

  lemma DeeperAt(trie: Trie, p: Path, key: Keysym)
    requires p in trie && trie[p].entries == []
    ensures var trie', c := Deeper(trie, p, key), p + [key];
      && (forall q :: q in trie' <==> q in trie || (q == c && key !in BranchKeys(trie, p)))
      && (forall q :: q in trie && q != p && q != c ==> trie'[q] == trie[q])
      && trie'[p] == Node(Some(BranchKeys(trie, p) + {key}), [])
      && (if key in BranchKeys(trie, p) then c in trie ==> trie'[c] == trie[c] else trie'[c] == Node(None, []))
  {
    assert p + [key] != p;
  }

  lemma DeeperStep(before: Trie, trie: Trie, lhs: Path, i: nat)
    requires Grown(before, trie, lhs, i) && i < |lhs|
    requires lhs[..i] in trie && trie[lhs[..i]].entries == []
    requires BranchKeys(trie, lhs[..i]) == BranchKeys(before, lhs[..i])
    requires lhs[i] in BranchKeys(trie, lhs[..i]) <==> lhs[..i + 1] in before
    ensures Grown(before, Deeper(trie, lhs[..i], lhs[i]), lhs, i + 1)
  {
    hide On, Deeper, BranchKeys;
    var p, c := lhs[..i], lhs[..i + 1];
    var trie' := Deeper(trie, p, lhs[i]);
    assert c == p + [lhs[i]] && |p| == i && |c| == i + 1;
    OnStep(lhs, i);
    DeeperAt(trie, p, lhs[i]);
    forall q | q in before && !(On(lhs, i + 1, q) && |q| < i + 1) ensures trie'[q] == before[q] {
      assert q != p;
    }
    forall q | q in trie' && On(lhs, i + 1, q) && |q| < i + 1
      ensures trie'[q] == Node(Some(BranchKeys(before, q) + {lhs[|q|]}), [])
    {
      if q == p { assert lhs[|q|] == lhs[i]; }
    }
  }

  lemma DeeperGrows(before: Trie, trie: Trie, macros: Macros, lhs: Path, i: nat)
    requires Denotes(before, macros) && Grown(before, trie, lhs, i) && i < |lhs|
    requires lhs[..i] !in macros
    ensures lhs[..i] in trie && trie[lhs[..i]].entries == []
    ensures lhs[i] in BranchKeys(trie, lhs[..i]) <==> lhs[..i + 1] in before
    ensures Grown(before, Deeper(trie, lhs[..i], lhs[i]), lhs, i + 1)
  {
    hide Denotes, Deeper;
    var p, c := lhs[..i], lhs[..i + 1];
    assert c == p + [lhs[i]] && On(lhs, i, p);
    if p in before {
      NodeAt(before, macros, p, lhs[i]);
    } else if c in before {
      assert c[..i] == p;
      PrefixPresent(before, macros, c, i);
    }
    DeeperStep(before, trie, lhs, i);
  }

  lemma StartsAfter(macros: Macros, lhs: Path, entries: seq<Entry>, p: Path)
    requires lhs !in macros
    ensures Starts(macros[lhs := entries], p) <==> Starts(macros, p) || On(lhs, |lhs|, p)
  {
    var macros' := macros[lhs := entries];
    if Starts(macros, p) {
      var l :| l in macros && p <= l;
      assert l in macros';
    }
    if On(lhs, |lhs|, p) {
      assert lhs in macros' && p <= lhs;
    }
  }

  /** A node of the finished tree on the way to the new leaf. */
  lemma OnWay(before: Trie, trie: Trie, macros: Macros, lhs: Path, p: Path, key: Keysym)
    requires Denotes(before, macros) && Grown(before, trie, lhs, |lhs|)
    requires !Clashes(macros, lhs)
    requires p in trie && p != lhs && On(lhs, |lhs|, p)
    ensures p !in macros && trie[p].branches.Some? && trie[p].entries == []
    ensures key in trie[p].branches.keys <==> p + [key] in trie
  {
    hide Denotes, Starts;
    assert |p| < |lhs|;
    if p in before {
      NodeAt(before, macros, p, key);
    }
    if p + [key] in before {
      PrefixPresent(before, macros, p + [key], |p|);
      assert (p + [key])[..|p|] == p;
    }
    assert lhs[..|p| + 1] == p + [lhs[|p|]];
    assert On(lhs, |lhs|, p + [key]) <==> key == lhs[|p|];
  }

  lemma OnParent(lhs: Path, p: Path, key: Keysym)
    requires On(lhs, |lhs|, p + [key])
    ensures On(lhs, |lhs|, p)
  {
    assert (p + [key])[..|p|] == p == lhs[..|p| + 1][..|p|];
  }

  /** A node of the finished tree that is not: it is as it was. */
  lemma OffWay(before: Trie, trie: Trie, macros: Macros, lhs: Path, p: Path, key: Keysym)
    requires Denotes(before, macros) && Grown(before, trie, lhs, |lhs|)
    requires p in trie && !On(lhs, |lhs|, p)
    ensures p in before && trie[p] == before[p]
    ensures p + [key] in trie <==> p + [key] in before
  {
    hide Denotes, Starts;
    if On(lhs, |lhs|, p + [key]) {
      OnParent(lhs, p, key);
    }
  }

  lemma FinishedNode(before: Trie, trie: Trie, macros: Macros, lhs: Path, entries: seq<Entry>, p: Path)
    requires Denotes(before, macros) && Grown(before, trie, lhs, |lhs|)
    requires !Clashes(macros, lhs) && entries != [] && lhs in trie
    requires p in trie
    ensures NodeOk(trie[lhs := Node(None, entries)], macros[lhs := entries], p)
  {
    hide Denotes, Starts, Grown;
    var trie' := trie[lhs := Node(None, entries)];
    forall key ensures p + [key] in trie' <==> p + [key] in trie {
    }
    if p != lhs {
      if On(lhs, |lhs|, p) {
        forall key
          ensures p !in macros && trie[p].branches.Some? && trie[p].entries == []
          ensures key in trie[p].branches.keys <==> p + [key] in trie
        {
          OnWay(before, trie, macros, lhs, p, key);
        }
        assert p !in macros by { OnWay(before, trie, macros, lhs, p, 0); }
        assert trie[p].branches.Some? && trie[p].entries == [] by { OnWay(before, trie, macros, lhs, p, 0); }
      } else {
        OffWay(before, trie, macros, lhs, p, 0);
        NodeAt(before, macros, p, 0);
        forall key | p !in macros ensures key in trie[p].branches.keys <==> p + [key] in trie {
          OffWay(before, trie, macros, lhs, p, key);
          NodeAt(before, macros, p, key);
        }
      }
    }
  }

  /** Finishing the leaf of a left-hand side that clashes with none. */
  lemma LeafCompletes(before: Trie, trie: Trie, macros: Macros, lhs: Path, entries: seq<Entry>)
    requires Denotes(before, macros) && Grown(before, trie, lhs, |lhs|)
    requires lhs != [] && entries != [] && !Clashes(macros, lhs)
    ensures Denotes(trie[lhs := Node(None, entries)], macros[lhs := entries])
  {
    hide Starts, Grown, NodeOk, On;
    GrownNodes(before, trie, lhs);
    var trie' := trie[lhs := Node(None, entries)];
    var macros' := macros[lhs := entries];
    assert lhs !in macros;
    forall p ensures p in trie' <==> p == ROOT || Starts(macros', p) {
      StartsAfter(macros, lhs, entries, p);
    }
    forall p | p in trie' ensures NodeOk(trie', macros', p) {
      FinishedNode(before, trie, macros, lhs, entries, p);
    }
  }

  lemma GrownNodes(before: Trie, trie: Trie, lhs: Path)
    requires Grown(before, trie, lhs, |lhs|)
    ensures forall p :: p in trie <==> p in before || On(lhs, |lhs|, p)
    ensures lhs in trie
  {
    assert On(lhs, |lhs|, lhs);
  }

  lemma MacroPresent(trie: Trie, macros: Macros, p: Path)
    requires Denotes(trie, macros) && p in macros
    ensures p in trie && p != ROOT
  {
    assert Starts(macros, p);
  }

  /** What following a left-hand side finds at each node. */
  lemma GrownNode(before: Trie, trie: Trie, macros: Macros, lhs: Path, i: nat)
    requires Denotes(before, macros) && Grown(before, trie, lhs, i)
    ensures lhs[..i] in trie
    ensures lhs[..i] !in before ==> trie[lhs[..i]] == Node(None, [])
    ensures lhs[..i] in macros ==> trie[lhs[..i]].branches.None? && trie[lhs[..i]].entries != [] && lhs[..i] in before
    ensures lhs[..i] in before && lhs[..i] !in macros ==> trie[lhs[..i]].branches.Some?
    ensures trie[lhs[..i]].entries != [] ==> lhs[..i] in macros
  {
    hide Starts;
    var p := lhs[..i];
    assert On(lhs, i, p);
    if p in macros {
      MacroPresent(before, macros, p);
    }
    if p in before {
      NodeAt(before, macros, p, 0);
    }
  }

  lemma GrownStart(trie: Trie, macros: Macros, lhs: Path)
    requires Denotes(trie, macros)
    ensures Grown(trie, trie, lhs, 0)
  {
    assert ROOT in trie;
    assert forall p :: On(lhs, 0, p) <==> p == ROOT;
  }

  lemma PresentClashes(trie: Trie, macros: Macros, lhs: Path)
    requires Denotes(trie, macros) && lhs in trie && lhs != ROOT
    ensures Clashes(macros, lhs)
  {
    assert Starts(macros, lhs);
  }

  lemma MacroClashes(macros: Macros, lhs: Path, p: Path)
    requires p in macros && p <= lhs
    ensures Clashes(macros, lhs)
  {
  }

  lemma ClashIsSeen(trie: Trie, macros: Macros, lhs: Path)
    requires Denotes(trie, macros) && Clashes(macros, lhs)
    ensures lhs in trie || exists n :: 0 <= n < |lhs| && lhs[..n] in macros
  {
    var p :| p in macros && (p <= lhs || lhs <= p);
    if lhs <= p {
      assert Starts(macros, lhs);
    } else {
      assert p == lhs[..|p|];
    }
  }

  // ---------------------------------------------------------------- any number of additions

  /** A set of macros has one tree. */
  lemma DenotesUnique(trie: Trie, trie': Trie, macros: Macros)
    requires Denotes(trie, macros) && Denotes(trie', macros)
    ensures trie == trie'
  {
    hide Starts;
    assert forall p :: p in trie <==> p in trie';
    forall p | p in trie ensures trie[p] == trie'[p] {
      if p !in macros {
        forall key ensures key in trie[p].branches.keys <==> key in trie'[p].branches.keys {
          NodeAt(trie, macros, p, key);
          NodeAt(trie', macros, p, key);
        }
        assert trie[p].branches.keys == trie'[p].branches.keys;
      }
    }
  }

  datatype Addition = Addition(lhs: seq<Keysym>, rhs: seq<Keysym>)

  ghost function AcceptAll(additions: seq<Addition>): Macros {
    if additions == [] then map[]
    else
      var last := additions[|additions| - 1];
      Accept(AcceptAll(additions[..|additions| - 1]), last.lhs, last.rhs)
  }

  /** A macro that one of the additions asked for, and well formed. */
  ghost predicate Given(additions: seq<Addition>, lhs: Path, entries: seq<Entry>) {
    && EndsInPress(entries)
    && exists i :: 0 <= i < |additions| && additions[i].lhs == lhs && entries == EntriesFor(lhs, additions[i].rhs)
  }

  /** After any additions, no accepted left-hand side starts another, and each
      belongs to an addition that was well formed. */
  lemma {:induction false} AcceptAllPrefixFree(additions: seq<Addition>)
    ensures PrefixFree(AcceptAll(additions))
    ensures forall p :: p in AcceptAll(additions) ==> Given(additions, p, AcceptAll(additions)[p])
  {
    if additions != [] {
      var front, last := additions[..|additions| - 1], additions[|additions| - 1];
      AcceptAllPrefixFree(front);
      AcceptKeepsPrefixFree(AcceptAll(front), last.lhs, last.rhs);
      forall p | p in AcceptAll(additions)
        ensures Given(additions, p, AcceptAll(additions)[p])
      {
        if p in AcceptAll(front) && AcceptAll(additions)[p] == AcceptAll(front)[p] {
          assert Given(front, p, AcceptAll(additions)[p]);
          var i :| 0 <= i < |front| && front[i].lhs == p && AcceptAll(additions)[p] == EntriesFor(p, front[i].rhs);
          assert additions[i] == front[i];
        } else {
          assert additions[|additions| - 1] == last;
        }
      }
    }
  }

  lemma EmptyDenotes()
    ensures Denotes(EMPTY, map[])
  {
  }

  class MacroTree {
    var nodes: Trie
    var active: seq<Path>
    ghost var macros: Macros

    /** The tree is that of the accepted macros, and its root is active as soon as
        there is one. */
    ghost predicate Valid()
      reads this
    {
      && Denotes(nodes, macros)
      && PrefixFree(macros)
      && active == (if macros == map[] then [] else [ROOT])
    }

    constructor ()
      ensures Valid() && macros == map[]
    {
      nodes, active, macros := EMPTY, [], map[];
      EmptyDenotes();
    }

    method Contains(keys: seq<Keysym>, key: Keysym) returns (found: bool)
      ensures found == (key in keys)
    {
      var i := 0;
      while i < |keys|
        invariant 0 <= i <= |keys| && key !in keys[..i]
      {
        if keys[i] == key {
          return true;
        }
        i := i + 1;
      }
      found := false;
    }

    /** The keysyms and press flags of a macro. */
    method MakeEntries(lhs: seq<Keysym>, rhs: seq<Keysym>) returns (entries: seq<Entry>)
      ensures entries == EntriesFor(lhs, rhs)
    {
      entries := [];
      var i := 0;
      while i < |lhs|
        invariant 0 <= i <= |lhs|
        invariant entries == Left(lhs, rhs)[..i]
      {
        var onRight := Contains(rhs, lhs[i]);
        entries := entries + [Entry(lhs[i], onRight)];
        i := i + 1;
      }
      var j := 0;
      while j < |rhs|
        invariant 0 <= j <= |rhs|
        invariant entries == Left(lhs, rhs) + NewOnRight(lhs, rhs[..j])
      {
        var onLeft := Contains(lhs, rhs[j]);
        assert rhs[..j + 1][..j] == rhs[..j];
        if !onLeft {
          entries := entries + [Entry(rhs[j], true)];
        }
        j := j + 1;
      }
      assert rhs[..j] == rhs;
    }

    /** Adds a macro.  A rejected one leaves the tree as it was. */
    method AddMacro(lhs: seq<Keysym>, rhs: seq<Keysym>) returns (rc: ReturnCode)
      requires Valid()
      modifies this
      ensures Valid()
      ensures rc == Verdict(old(macros), lhs, rhs)
      ensures macros == Accept(old(macros), lhs, rhs)
      ensures rc != Ok ==> nodes == old(nodes) && active == old(active)
    {
      hide Denotes, Grown, PrefixFree, Clashes, Starts;
      if |lhs| == 0 || |rhs| == 0 {
        return Einval;
      }
      var entries := MakeEntries(lhs, rhs);
      if !entries[|entries| - 1].press {
        return Einval;
      }
      rc := Follow(lhs);
      if rc != Ok {
        return;
      }
      LeafCompletes(old(nodes), nodes, macros, lhs, entries);
      nodes := nodes[lhs := Node(None, entries)];
      AcceptKeepsPrefixFree(macros, lhs, rhs);
      macros := macros[lhs := entries];
      assert lhs in macros;
      if active == [] {
        active := [ROOT];
      }
    }

    /** Follows a left-hand side into the tree, making what is not there. */
    method Follow(lhs: seq<Keysym>) returns (rc: ReturnCode)
      requires Denotes(nodes, macros) && lhs != []
      modifies `nodes
      ensures rc == if Clashes(macros, lhs) then Eexist else Ok
      ensures if rc == Ok then Grown(old(nodes), nodes, lhs, |lhs|) else nodes == old(nodes)
    {
      hide Denotes, Starts, Grown, Clashes, Deeper;
      var i := 0;
      var p := ROOT;
      GrownStart(nodes, macros, lhs);
      while true
        invariant 0 <= i <= |lhs| && p == lhs[..i]
        invariant Grown(old(nodes), nodes, lhs, i)
        invariant forall n :: 0 <= n < i ==> lhs[..n] !in macros
        decreases |lhs| - i
      {
        GrownNode(old(nodes), nodes, macros, lhs, i);
        if i == |lhs| {
          assert p == lhs;
          if nodes[p].branches.Some? || nodes[p].entries != [] {
            GrownNothing(old(nodes), nodes, macros, lhs, i);
            PresentClashes(old(nodes), macros, lhs);
            return Eexist;
          }
          if Clashes(macros, lhs) {
            ClashIsSeen(old(nodes), macros, lhs);
          }
          return Ok;
        }
        if nodes[p].branches.None? && nodes[p].entries != [] {
          GrownNothing(old(nodes), nodes, macros, lhs, i);
          MacroClashes(macros, lhs, p);
          return Eexist;
        }
        DeeperGrows(old(nodes), nodes, macros, lhs, i);
        GoDeeper(p, lhs[i]);
        p := p + [lhs[i]];
        i := i + 1;
      }
    }

    /** Makes the branch set of a node, the branch and the child, as needed. */
    method GoDeeper(p: Path, key: Keysym)
      requires p in nodes
      modifies `nodes
      ensures nodes == Deeper(old(nodes), p, key)
    {
      var node := nodes[p];
      if node.branches.None? {
        node := node.(branches := Some({}));
        nodes := nodes[p := node];
      }
      if key !in node.branches.keys {
        nodes := nodes[p + [key] := Node(None, [])];
        nodes := nodes[p := node.(branches := Some(node.branches.keys + {key}))];
      }
      assert p + [key] != p;
      assert node.branches.keys + {key} == BranchKeys(old(nodes), p) + {key};
      assert key in node.branches.keys ==> node.branches.keys + {key} == node.branches.keys;
      assert nodes == Deeper(old(nodes), p, key);
    }
  }
}
