/** The in-memory table registry of the single-file iteration: the list
    headed by `tableHead`, newest table first, each node carrying a lock
    flag.  The list is a sequence here; these are the functions its
    searches and its in-place lock toggle are specified by. */
module SkeletRegistry {

  /** One node of the registry list (struct Table without its link). */
  datatype TableNode = TableNode(name: string, columnsFile: string, dataFile: string, isLocked: bool)

  /** Position of the first node named name, or |list| when there is none:
      the node every search of the list stops at. */
  function FirstMatch(list: seq<TableNode>, name: string): (i: nat)
    ensures i <= |list|
    ensures i < |list| ==> list[i].name == name
    ensures forall j :: 0 <= j < i ==> list[j].name != name
  {
    if list == [] then 0
    else if list[0].name == name then 0
    else 1 + FirstMatch(list[1..], name)
  }

  /** The table is registered. */
  predicate Registered(list: seq<TableNode>, name: string) {
    exists j :: 0 <= j < |list| && list[j].name == name
  }

  /** The lock flag as isLocked reports it: that of the first node with the
      name, and false for a name that is not registered. */
  function LockedIn(list: seq<TableNode>, name: string): (b: bool)
    ensures !Registered(list, name) ==> !b
    ensures b <==> exists j :: 0 <= j < |list| && list[j].name == name && list[j].isLocked
                                && forall k :: 0 <= k < j ==> list[k].name != name
  {
    var i := FirstMatch(list, name);
    i < |list| && list[i].isLocked
  }

  /** The list after locker(name): the first node with the name has its
      flag inverted; a list without the name is unchanged. */
  function Toggled(list: seq<TableNode>, name: string): seq<TableNode> {
    var i := FirstMatch(list, name);
    if i < |list| then list[i := list[i].(isLocked := !list[i].isLocked)] else list
  }

  /** locker changes nothing but the lock flag of the first matching node. */
  lemma ToggledChangesOnlyFirstMatch(list: seq<TableNode>, name: string)
    ensures |Toggled(list, name)| == |list|
    ensures forall j :: 0 <= j < |list| ==>
              Toggled(list, name)[j].name == list[j].name
              && Toggled(list, name)[j].columnsFile == list[j].columnsFile
              && Toggled(list, name)[j].dataFile == list[j].dataFile
    ensures forall j :: 0 <= j < |list| && j != FirstMatch(list, name) ==> Toggled(list, name)[j] == list[j]
    ensures Registered(list, name) ==> LockedIn(Toggled(list, name), name) == !LockedIn(list, name)
    ensures !Registered(list, name) ==> Toggled(list, name) == list
  {
    var i := FirstMatch(list, name);
    if i < |list| {
      SameNamesSameMatch(list, Toggled(list, name), name);
    }
  }

  /** Two lists whose nodes carry the same names agree on the first match. */
  lemma {:induction false} SameNamesSameMatch(a: seq<TableNode>, b: seq<TableNode>, name: string)
    requires |a| == |b|
    requires forall j :: 0 <= j < |a| ==> a[j].name == b[j].name
    ensures FirstMatch(a, name) == FirstMatch(b, name)
    decreases |a|
  {
    if a != [] && a[0].name != name {
      SameNamesSameMatch(a[1..], b[1..], name);
    }
  }

  /** Two calls of locker in a row restore the registry. */
  lemma ToggledTwice(list: seq<TableNode>, name: string)
    ensures Toggled(Toggled(list, name), name) == list
  {
    SameNamesSameMatch(list, Toggled(list, name), name);
  }

  /** The list after addTable: a new unlocked node in front. */
  function Prepended(list: seq<TableNode>, name: string, columnsFile: string, dataFile: string): seq<TableNode> {
    [TableNode(name, columnsFile, dataFile, false)] + list
  }

  /** After addTable the name is registered and unlocked, whatever an older
      node of the same name says: the new node shadows it for every search.
      Other names keep their flags. */
  lemma PrependedShadows(list: seq<TableNode>, name: string, columnsFile: string, dataFile: string, other: string)
    requires other != name
    ensures Registered(Prepended(list, name, columnsFile, dataFile), name)
    ensures FirstMatch(Prepended(list, name, columnsFile, dataFile), name) == 0
    ensures !LockedIn(Prepended(list, name, columnsFile, dataFile), name)
    ensures LockedIn(Prepended(list, name, columnsFile, dataFile), other) == LockedIn(list, other)
    ensures Registered(Prepended(list, name, columnsFile, dataFile), other) == Registered(list, other)
  {
    var p := Prepended(list, name, columnsFile, dataFile);
    assert p[0].name == name;
    assert p[1..] == list;
    if Registered(list, other) {
      var j :| 0 <= j < |list| && list[j].name == other;
      assert p[j + 1].name == other;
    }
  }
}
