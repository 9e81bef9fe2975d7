/**
 * `diff_mcp_servers`: the preview mode's summary of what a run changes under `mcpServers`,
 * one line per server that is new or whose definition differs.
 */
module ServerDiff {

  import opened Wrappers
  import opened ConfigDoc

  datatype Change = Add(key: string) | Update(key: string)

  /** How one member of the after-map compares with the before-map; empty when unchanged. */
  function Classify(before: Servers, key: string, value: Value): seq<Change> {
    match Get(before, key)
    case None => [Add(key)]
    case Some(prior) => if prior != value then [Update(key)] else []
  }

  /** The changes from `before` to `after`, in the order of `after`'s members. */
  function Changes(before: Servers, after: Servers): seq<Change>
    decreases |after|
  {
    if after == [] then []
    else Changes(before, after[..|after| - 1]) + Classify(before, after[|after| - 1].0, after[|after| - 1].1)
  }

  /** The changes between two documents' `mcpServers` (a missing one counts as `{}`). */
  function Diff(before: Doc, after: Doc): seq<Change> {
    Changes(ServersOf(before), ServersOf(after))
  }

  /** The text of one diff line. */
  function Render(c: Change): string {
    match c
    case Add(k) => "  + ADD    \"" + k + "\""
    case Update(k) => "  ~ UPDATE \"" + k + "\""
  }

  /** `diff_mcp_servers(before, after)`: one rendered line per change, in `after`'s order. */
  method DiffMcpServers(before: Doc, after: Doc) returns (lines: seq<string>)
    ensures |lines| == |Diff(before, after)|
    ensures forall i :: 0 <= i < |lines| ==> lines[i] == Render(Diff(before, after)[i])
  {
    var beforeServers := ServersOf(before);
    var afterServers := ServersOf(after);
    lines := [];
    var i := 0;
    while i < |afterServers|
      invariant i <= |afterServers|
      invariant |lines| == |Changes(beforeServers, afterServers[..i])|
      invariant forall j :: 0 <= j < |lines| ==> lines[j] == Render(Changes(beforeServers, afterServers[..i])[j])
    {
      var (key, value) := afterServers[i];
      var prior := Get(beforeServers, key);
      if prior.None? {
        lines := lines + [Render(Add(key))];
      } else if prior.value != value {
        lines := lines + [Render(Update(key))];
      }
      assert afterServers[..i + 1][..i] == afterServers[..i];
      i := i + 1;
    }
    assert afterServers[..i] == afterServers;
  }

  /** The changes of a concatenation are the changes of its parts, in order. */
  lemma {:induction false} ChangesAppend(before: Servers, a1: Servers, a2: Servers)
    ensures Changes(before, a1 + a2) == Changes(before, a1) + Changes(before, a2)
    decreases |a2|
  {
    if a2 == [] {
      assert a1 + a2 == a1;
    } else {
      var n := |a2| - 1;
      assert (a1 + a2)[..|a1 + a2| - 1] == a1 + a2[..n];
      ChangesAppend(before, a1, a2[..n]);
    }
  }

  /** A change is reported exactly when some member of `after` classifies as that change. */
  lemma InChanges(before: Servers, after: Servers, c: Change)
    ensures c in Changes(before, after) <==>
      exists i :: 0 <= i < |after| && c in Classify(before, after[i].0, after[i].1)
  {
    if c in Changes(before, after) {
      var i := ChangeSource(before, after, c);
    }
    if exists i :: 0 <= i < |after| && c in Classify(before, after[i].0, after[i].1) {
      var i :| 0 <= i < |after| && c in Classify(before, after[i].0, after[i].1);
      ChangeReported(before, after, i, c);
    }
  }

  /** The member of `after` that a reported change comes from. */
  lemma {:induction false} ChangeSource(before: Servers, after: Servers, c: Change) returns (i: nat)
    requires c in Changes(before, after)
    ensures i < |after| && c in Classify(before, after[i].0, after[i].1)
    decreases |after|
  {
    var n := |after| - 1;
    var last := Classify(before, after[n].0, after[n].1);
    assert Changes(before, after) == Changes(before, after[..n]) + last;
    if c in last {
      i := n;
    } else {
      i := ChangeSource(before, after[..n], c);
      assert after[..n][i] == after[i];
    }
  }

  /** Every member's classification is reported. */
  lemma {:induction false} ChangeReported(before: Servers, after: Servers, i: nat, c: Change)
    requires i < |after| && c in Classify(before, after[i].0, after[i].1)
    ensures c in Changes(before, after)
    decreases |after|
  {
    var n := |after| - 1;
    var last := Classify(before, after[n].0, after[n].1);
    assert Changes(before, after) == Changes(before, after[..n]) + last;
    if i < n {
      assert after[..n][i] == after[i];
      ChangeReported(before, after[..n], i, c);
    }
  }

  /** ADD is reported for exactly the servers present after and absent before. */
  lemma DiffAddIff(before: Doc, after: Doc, k: string)
    ensures Add(k) in Diff(before, after) <==>
      k in InstalledKeys(after) && k !in InstalledKeys(before)
  {
    var b, a := ServersOf(before), ServersOf(after);
    InChanges(b, a, Add(k));
    if k in InstalledKeys(after) && k !in InstalledKeys(before) {
      var i :| 0 <= i < |a| && a[i].0 == k;
      assert Add(k) in Classify(b, a[i].0, a[i].1);
    }
  }

  /** UPDATE is reported for exactly the servers present on both sides with different definitions. */
  lemma DiffUpdateIff(before: Doc, after: Doc, k: string)
    requires WellFormed(after)
    ensures Update(k) in Diff(before, after) <==>
      k in InstalledKeys(after) && k in InstalledKeys(before)
      && Get(ServersOf(before), k) != Get(ServersOf(after), k)
  {
    if Update(k) in Diff(before, after) {
      UpdateReported(before, after, k);
    }
    if k in InstalledKeys(after) && k in InstalledKeys(before)
      && Get(ServersOf(before), k) != Get(ServersOf(after), k) {
      UpdateReportedWhen(before, after, k);
    }
  }

  /** A reported UPDATE names a server on both sides whose definition changed. */
  lemma UpdateReported(before: Doc, after: Doc, k: string)
    requires WellFormed(after) && Update(k) in Diff(before, after)
    ensures k in InstalledKeys(after) && k in InstalledKeys(before)
    ensures Get(ServersOf(before), k) != Get(ServersOf(after), k)
  {
    var b, a := ServersOf(before), ServersOf(after);
    assert DistinctKeys(a);
    var i := ChangeSource(b, a, Update(k));
    GetAt(a, i);
  }

  /** A server on both sides whose definition changed is reported as an UPDATE. */
  lemma UpdateReportedWhen(before: Doc, after: Doc, k: string)
    requires WellFormed(after) && k in InstalledKeys(after) && k in InstalledKeys(before)
    requires Get(ServersOf(before), k) != Get(ServersOf(after), k)
    ensures Update(k) in Diff(before, after)
  {
    var b, a := ServersOf(before), ServersOf(after);
    assert DistinctKeys(a);
    assert k in KeySet(a);
    var i :| 0 <= i < |a| && a[i].0 == k;
    GetAt(a, i);
    assert Classify(b, a[i].0, a[i].1) == [Update(k)];
    ChangeReported(b, a, i, Update(k));
  }

  /** Only servers present after are reported: a server known only to `before` never is. */
  lemma DiffKeysFromAfter(before: Doc, after: Doc, c: Change)
    requires c in Diff(before, after)
    ensures c.key in InstalledKeys(after)
  {
    InChanges(ServersOf(before), ServersOf(after), c);
    var a := ServersOf(after);
    var i :| 0 <= i < |a| && c in Classify(ServersOf(before), a[i].0, a[i].1);
  }

  /** Members that `before` already holds with the same definition produce no change. */
  lemma {:induction false} ChangesNone(before: Servers, after: Servers)
    requires forall i :: 0 <= i < |after| ==> Get(before, after[i].0) == Some(after[i].1)
    ensures Changes(before, after) == []
    decreases |after|
  {
    if after != [] {
      var n := |after| - 1;
      ChangesNone(before, after[..n]);
    }
  }

  /** Comparing a document with itself reports nothing. */
  lemma DiffSelf(doc: Doc)
    requires WellFormed(doc)
    ensures Diff(doc, doc) == []
  {
    var s := ServersOf(doc);
    forall i | 0 <= i < |s| ensures Get(s, s[i].0) == Some(s[i].1) {
      GetAt(s, i);
    }
    ChangesNone(s, s);
  }

  /** A slice of a document's own servers shows no change against them. */
  lemma ChangesOwnSlice(s: Servers, lo: nat, hi: nat)
    requires DistinctKeys(s) && lo <= hi <= |s|
    ensures Changes(s, s[lo..hi]) == []
  {
    var t := s[lo..hi];
    forall j | 0 <= j < |t| ensures Get(s, t[j].0) == Some(t[j].1) {
      assert t[j] == s[lo + j];
      GetAt(s, lo + j);
    }
    ChangesNone(s, t);
  }

  lemma ChangesSingle(before: Servers, key: string, value: Value)
    ensures Changes(before, [(key, value)]) == Classify(before, key, value)
  {
    assert [(key, value)][..0] == [];
  }

  /** One member placed between two unchanged runs is the only change reported. */
  lemma ChangesSplice(before: Servers, pre: Servers, key: string, value: Value, post: Servers)
    requires Changes(before, pre) == [] && Changes(before, post) == []
    ensures Changes(before, pre + [(key, value)] + post) == Classify(before, key, value)
  {
    ChangesAppend(before, pre + [(key, value)], post);
    ChangesAppend(before, pre, [(key, value)]);
    ChangesSingle(before, key, value);
  }

  /** Setting a server the document lacks shows one ADD. */
  lemma ChangesAfterPutNew(s: Servers, key: string, value: Value)
    requires DistinctKeys(s) && key !in KeySet(s)
    ensures Changes(s, Put(s, key, value)) == [Add(key)]
  {
    PutNew(s, key, value);
    ChangesOwnSlice(s, 0, |s|);
    assert s[0..|s|] == s;
    ChangesSplice(s, s, key, value, []);
    assert s + [(key, value)] + [] == s + [(key, value)];
  }

  /** Replacing one element is splicing it between the elements before and after it. */
  lemma UpdateIsSplice(s: Servers, i: nat, kv: (string, Value))
    requires i < |s|
    ensures s[i := kv] == s[0..i] + [kv] + s[i + 1..|s|]
  {
  }

  /** Overwriting a server the document has shows at most that server's UPDATE. */
  lemma ChangesAfterPutExisting(s: Servers, i: nat, value: Value)
    requires DistinctKeys(s) && i < |s|
    ensures Changes(s, Put(s, s[i].0, value)) == Classify(s, s[i].0, value)
  {
    var key := s[i].0;
    PutExisting(s, key, value, i);
    UpdateIsSplice(s, i, (key, value));
    ChangesOwnSlice(s, 0, i);
    ChangesOwnSlice(s, i + 1, |s|);
    ChangesSplice(s, s[0..i], key, value, s[i + 1..|s|]);
  }

  /**
   * What one install shows in the preview: ADD for a new server, UPDATE for a changed
   * definition, nothing when the same definition was already there.
   */
  lemma DiffAfterSetServer(doc: Doc, key: string, value: Value)
    requires WellFormed(doc)
    ensures Diff(doc, SetServer(doc, key, value)) ==
      match Get(ServersOf(doc), key)
      case None => [Add(key)]
      case Some(prior) => if prior != value then [Update(key)] else []
  {
    var s := ServersOf(doc);
    assert DistinctKeys(s);
    if key !in KeySet(s) {
      ChangesAfterPutNew(s, key, value);
    } else {
      var i :| 0 <= i < |s| && s[i].0 == key;
      ChangesAfterPutExisting(s, i, value);
    }
  }

  /** A diff line names its change unambiguously: the kind and the key can be read back. */
  lemma RenderInjective(c1: Change, c2: Change)
    requires Render(c1) == Render(c2)
    ensures c1 == c2
  {
    var s := Render(c1);
    assert s[12..|s| - 1] == c1.key;
    assert Render(c2)[12..|s| - 1] == c2.key;
    assert s[2] == if c1.Add? then '+' else '~';
    assert Render(c2)[2] == if c2.Add? then '+' else '~';
  }
}
