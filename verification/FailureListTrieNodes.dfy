/** Trie nodes as the source has them (conformance/failure_list_trie_node.{h,cc}): mutable objects
    owning their children, proved against the trie values of module FailureTries. */
module FailureListTrieNodes {
  import opened Options
  import opened Sequences
  import opened TestNames
  import opened FailureTries

  class FailureListTrieNode {
    var data: string
    var children: seq<FailureListTrieNode>
    var isTestName: bool

    ghost var tree: Trie
    ghost var Repr: set<object>

    ghost predicate Valid()
      reads this, Repr
      decreases Repr
    {
      && this in Repr
      && tree.data == data && tree.isName == isTestName && |tree.kids| == |children|
      && (forall i | 0 <= i < |children| ::
            && children[i] in Repr && children[i].Repr <= Repr && this !in children[i].Repr
            && children[i].Valid() && tree.kids[i] == children[i].tree)
      && (forall i, j | 0 <= i < j < |children| :: children[i].Repr !! children[j].Repr)
    }

    /** The source leaves is_test_name_ of a root unset; it is never read. */
    constructor (data: string, isTestName: bool)
      ensures Valid() && fresh(Repr)
      ensures tree == Trie(data, isTestName, [])
    {
      this.data, children, this.isTestName := data, [], isTestName;
      tree, Repr := Trie(data, isTestName, []), {this};
    }

    method InsertImpl(testName: string)
      requires Valid()
      modifies Repr
      ensures Valid() && fresh(Repr - old(Repr))
      ensures tree == FailureTries.Insert(old(tree), Split(testName))
      decreases 3 * |testName| + 2
    {
      var dot := Find(testName, '.');
      var section := testName[..dot];
      var isLastSection := dot == |testName|;
      var rest := if isLastSection then "" else testName[dot + 1..];
      ghost var q := Split(testName);
      assert isLastSection ==> q == [section];
      assert !isLastSection ==> q[1..] == Split(rest);

      var i := 0;
      while i < |children| && children[i].data != section
        invariant 0 <= i <= |children|
        invariant forall j | 0 <= j < i :: tree.kids[j].data != section
      {
        i := i + 1;
      }
      FindKidIs(tree.kids, section, i);
      if i < |children| {
        UpdateChild(i, isLastSection, rest, q);
      } else {
        AppendChild(section, isLastSection, rest, q);
      }
    }

    /** What both branches do with the child: mark it, or insert the other sections under it. */
    method InsertBelow(isLastSection: bool, rest: string, ghost q: seq<string>)
      requires Valid()
      requires q != [] && (isLastSection <==> |q| == 1) && (!isLastSection ==> q[1..] == Split(rest))
      modifies Repr
      ensures Valid() && fresh(Repr - old(Repr))
      ensures tree == InsertKid(old(tree), q)
      decreases if isLastSection then 0 else 3 * |rest| + 3
    {
      if isLastSection {
        isTestName := true;
        tree := tree.(isName := true);
      } else {
        InsertImpl(rest);
      }
    }

    /** The branch that finds a child with the section's label. */
    method UpdateChild(i: nat, isLastSection: bool, rest: string, ghost q: seq<string>)
      requires Valid() && i < |children|
      requires q != [] && (isLastSection <==> |q| == 1) && (!isLastSection ==> q[1..] == Split(rest))
      modifies Repr
      ensures Valid() && fresh(Repr - old(Repr))
      ensures tree == old(tree).(kids := old(tree).kids[i := InsertKid(old(tree).kids[i], q)])
      decreases if isLastSection then 1 else 3 * |rest| + 4
    {
      var child := children[i];
      child.InsertBelow(isLastSection, rest, q);
      tree := tree.(kids := tree.kids[i := child.tree]);
      Repr := Repr + child.Repr;
    }

    /** The branch that finds none: the new child is appended first and then extended. */
    method AppendChild(section: string, isLastSection: bool, rest: string, ghost q: seq<string>)
      requires Valid()
      requires q != [] && q[0] == section
      requires (isLastSection <==> |q| == 1) && (!isLastSection ==> q[1..] == Split(rest))
      modifies Repr
      ensures Valid() && fresh(Repr - old(Repr))
      ensures tree == old(tree).(kids := old(tree).kids + [InsertKid(Trie(section, false, []), q)])
      decreases if isLastSection then 1 else 3 * |rest| + 4
    {
      var child := new FailureListTrieNode(section, false);
      children := children + [child];
      child.InsertBelow(isLastSection, rest, q);
      tree := tree.(kids := tree.kids + [child.tree]);
      Repr := Repr + child.Repr;
    }

    method WalkDownMatch(testName: string) returns (r: Option<string>)
      requires Valid()
      ensures r == match Walk(tree.kids, Split(testName))
                   case Some(p) => if p != [] then Some(Join(p)) else None
                   case None => None
      decreases |testName|
    {
      var dot := Find(testName, '.');
      var section := testName[..dot];
      var toMatch := "";
      if section != testName {
        toMatch := testName[dot + 1..];
      }
      ghost var q := Split(testName);
      for i := 0 to |children|
        invariant Walk(tree.kids, q) == Walk(tree.kids[i..], q)
      {
        var child := children[i];
        WalkNext(tree.kids, i, q);
        if child.data == section || child.data == STAR || section == STAR {
          var appended := child.data;
          if testName == section {
            if child.isTestName {
              return Some(appended);
            }
          } else {
            var result := child.WalkDownMatch(toMatch);
            WalkAnswers(child.tree, Split(toMatch));
            if result.Some? {
              ghost var p := Walk(child.tree.kids, Split(toMatch)).value;
              assert ([appended] + p)[1..] == p;
              return Some(appended + "." + result.value);
            }
          }
        }
      }
      assert tree.kids[|children|..] == [];
      return None;
    }

    method Insert(testName: string) returns (status: Status)
      requires Valid()
      modifies Repr
      ensures Valid() && fresh(Repr - old(Repr))
      ensures (status, tree) == InsertName(old(tree), testName)
    {
      var result := WalkDownMatch(testName);
      ghost var q := Split(testName);
      WalkAnswers(tree, q);
      if result.Some? {
        return AlreadyExists;
      }
      var sections := Split(testName);
      for i := 0 to |sections|
        invariant forall j | 0 <= j < i :: !BadWildcard(sections[j])
      {
        if '*' in sections[i] && |sections[i]| > 1 {
          return InvalidArgument;
        }
      }
      InsertImpl(testName);
      return OkStatus;
    }
  }
}
