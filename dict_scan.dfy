/** The membership pass both validators run over a dict of chains: visit the
    entries in dict order; an entry whose key is not a known variable, or whose
    chain holds a node that is not a known qubit, stops the pass, and the first
    such key (or, failing that, the first such chain member) is the one
    reported. */
module DictScan {
  import opened Containers
  import opened Graphs

  datatype EntryFault = UnknownKey(key: Node) | UnknownMember(member: Node)

  /** Entry `i` (in dict order) has an unknown key or an unknown chain member. */
  predicate EntryFaulty(d: Dict<Node, seq<Node>>, known: set<Node>, members: set<Node>, i: int)
    requires DictWellFormed(d) && 0 <= i < |d.keys|
  {
    d.keys[i] !in known || !(Elems(d.entries[d.keys[i]]) <= members)
  }

  /** The position of the first element of `s` outside `members`, or `|s|`. */
  function FirstOutside(s: seq<Node>, members: set<Node>): (j: nat)
    ensures j <= |s|
    ensures j < |s| ==> s[j] !in members
    ensures forall k :: 0 <= k < j ==> s[k] in members
    decreases |s|
  {
    if s == [] || s[0] !in members then 0 else 1 + FirstOutside(s[1..], members)
  }

  /** The position of the first faulty entry at or after `from`, or `|d.keys|`. */
  function FirstFaultyEntry(d: Dict<Node, seq<Node>>, known: set<Node>, members: set<Node>, from: nat): (i: nat)
    requires DictWellFormed(d) && from <= |d.keys|
    ensures from <= i <= |d.keys|
    ensures i < |d.keys| ==> EntryFaulty(d, known, members, i)
    ensures forall j :: from <= j < i ==> !EntryFaulty(d, known, members, j)
    decreases |d.keys| - from
  {
    if from == |d.keys| || EntryFaulty(d, known, members, from) then from
    else FirstFaultyEntry(d, known, members, from + 1)
  }

  /** What the pass reports: nothing when every key is known and every chain
      lies within `members`; otherwise the fault of the first faulty entry,
      where an unknown key is reported before any member of its chain. */
  function EntryFaultOf(d: Dict<Node, seq<Node>>, known: set<Node>, members: set<Node>): (r: Option<EntryFault>)
    requires DictWellFormed(d)
    ensures r.None? <==> d.entries.Keys <= known && forall k :: k in d.entries ==> Elems(d.entries[k]) <= members
    ensures r.Some? && r.value.UnknownKey? ==> r.value.key in d.entries && r.value.key !in known
    ensures r.Some? && r.value.UnknownMember? ==>
      exists k :: k in d.entries && k in known && r.value.member in d.entries[k] && r.value.member !in members
  {
    var i := FirstFaultyEntry(d, known, members, 0);
    if i == |d.keys| then
      assert forall k :: k in d.entries ==> k in known && Elems(d.entries[k]) <= members by {
        forall k | k in d.entries ensures k in known && Elems(d.entries[k]) <= members {
          var j :| 0 <= j < |d.keys| && d.keys[j] == k;
          assert !EntryFaulty(d, known, members, j);
        }
      }
      assert d.entries.Keys <= known by {
        forall k | k in d.entries.Keys ensures k in known {
          assert k in d.entries;
        }
      }
      None
    else
      var k := d.keys[i];
      if k !in known then Some(UnknownKey(k))
      else
        var chain := d.entries[k];
        var j := FirstOutside(chain, members);
        if j == |chain| then
          assert false;
          None
        else
          Some(UnknownMember(chain[j]))
  }

  /** The loops of tests/test_lib.py that walk `d.items()`, checking each key
      with `has_node` on the problem graph and each chain member with
      `has_node` on the hardware graph. */
  method FindEntryFault(d: Dict<Node, seq<Node>>, known: set<Node>, members: set<Node>) returns (r: Option<EntryFault>)
    requires DictWellFormed(d)
    ensures r == EntryFaultOf(d, known, members)
  {
    var i := 0;
    while i < |d.keys|
      invariant 0 <= i <= |d.keys|
      invariant FirstFaultyEntry(d, known, members, 0) == FirstFaultyEntry(d, known, members, i)
    {
      var k := d.keys[i];
      if k !in known {
        return Some(UnknownKey(k));
      }
      var chain := d.entries[k];
      var t := 0;
      while t < |chain|
        invariant 0 <= t <= |chain|
        invariant FirstOutside(chain, members) >= t
      {
        if chain[t] !in members {
          return Some(UnknownMember(chain[t]));
        }
        t := t + 1;
      }
      i := i + 1;
    }
    return None;
  }
}
