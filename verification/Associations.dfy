/** Which test function covers which rule with how many cases, whatever the order in which calls are met. */
module Associations {
  import opened Options
  import opened Reexports
  import opened Sorting

  datatype Location = Location(path: string, line: nat, column: nat)

  datatype Call = Call(location: Location, testFunction: Option<string>, testLocation: Option<Location>,
                       rule: Option<Reference>, caseLocations: seq<Location>, unknownCaseCount: bool)

  /** A test function and a rule, the key calls are grouped by. */
  datatype Group = Group(location: Location, rule: Reference)

  datatype Entry = Entry(testFunction: string, calls: set<Location>, cases: set<Location>, unknown: bool)

  datatype Association = Association(rule: Reference, testFunction: string, testLocation: Location,
                                     calls: seq<Location>, cases: seq<Location>, unknownCaseCount: bool)

  predicate LocationLess(a: Location, b: Location) {
    || TextLess(a.path, b.path)
    || (a.path == b.path && (a.line < b.line || (a.line == b.line && a.column < b.column)))
  }

  predicate GroupLess(a: Group, b: Group) {
    || LocationLess(a.location, b.location)
    || (a.location == b.location
        && (|| TextLess(a.rule.moduleName, b.rule.moduleName)
            || (a.rule.moduleName == b.rule.moduleName && TextLess(a.rule.symbolName, b.rule.symbolName))))
  }

  lemma LocationOrder()
    ensures StrictOrder(LocationLess)
  {
    TextOrder();
  }

  lemma GroupOrder()
    ensures StrictOrder(GroupLess)
  {
    TextOrder();
    LocationOrder();
  }

  // ---------- What is associated ----------

  /** The group of a call, if it belongs to a test function and its rule can be resolved. */
  function GroupOf(modules: Modules, call: Call): Option<Group> {
    if call.testFunction.None? || call.testLocation.None? || call.rule.None? then None
    else
      match Resolve(modules, call.rule.value, {})
      case None => None
      case Some(rule) => Some(Group(call.testLocation.value, rule))
  }

  ghost function GroupsOf(modules: Modules, calls: seq<Call>): set<Group> {
    set c | c in calls && GroupOf(modules, c).Some? :: GroupOf(modules, c).value
  }

  ghost function CallsOf(modules: Modules, calls: seq<Call>, group: Group): set<Location> {
    set c | c in calls && GroupOf(modules, c) == Some(group) :: c.location
  }

  ghost function CasesOf(modules: Modules, calls: seq<Call>, group: Group): set<Location> {
    set c, l | c in calls && GroupOf(modules, c) == Some(group) && l in c.caseLocations :: l
  }

  ghost predicate UnknownIn(modules: Modules, calls: seq<Call>, group: Group) {
    exists c :: c in calls && GroupOf(modules, c) == Some(group) && c.unknownCaseCount
  }

  /** The test function named by the first call of the group. */
  ghost function FirstName(modules: Modules, calls: seq<Call>, group: Group): string
    requires group in GroupsOf(modules, calls)
  {
    if GroupOf(modules, calls[0]) == Some(group) then calls[0].testFunction.value
    else FirstName(modules, calls[1..], group)
  }

  ghost function EntryFor(modules: Modules, calls: seq<Call>, group: Group): Entry
    requires group in GroupsOf(modules, calls)
  {
    Entry(FirstName(modules, calls, group), CallsOf(modules, calls, group), CasesOf(modules, calls, group),
          UnknownIn(modules, calls, group))
  }

  ghost function Listed(group: Group, entry: Entry): Association {
    LocationOrder();
    Association(group.rule, entry.testFunction, group.location, Sort(entry.calls, LocationLess),
                Sort(entry.cases, LocationLess), entry.unknown)
  }

  ghost function GroupsInOrder(modules: Modules, calls: seq<Call>): (groups: seq<Group>)
    ensures forall g :: g in groups <==> g in GroupsOf(modules, calls)
  {
    GroupOrder();
    Sort(GroupsOf(modules, calls), GroupLess)
  }

  /** One association per group, ordered by test and rule. */
  ghost function Associations(modules: Modules, calls: seq<Call>): seq<Association> {
    var groups := GroupsInOrder(modules, calls);
    seq(|groups|, i requires 0 <= i < |groups| =>
      assert groups[i] in groups;
      Listed(groups[i], EntryFor(modules, calls, groups[i])))
  }

  // ---------- Order and repetition ----------

  ghost predicate SameCalls(calls: seq<Call>, others: seq<Call>) {
    forall c :: c in calls <==> c in others
  }

  /** Calls of one group name one test function. */
  ghost predicate NamesAgree(modules: Modules, calls: seq<Call>) {
    forall c, d | c in calls && d in calls && GroupOf(modules, c).Some? && GroupOf(modules, c) == GroupOf(modules, d) ::
      c.testFunction == d.testFunction
  }

  lemma {:induction false} FirstNameIsNamed(modules: Modules, calls: seq<Call>, group: Group)
    requires group in GroupsOf(modules, calls)
    ensures exists c ::
              && c in calls && GroupOf(modules, c) == Some(group)
              && c.testFunction == Some(FirstName(modules, calls, group))
  {
    if GroupOf(modules, calls[0]) == Some(group) {
      assert calls[0] in calls;
    } else {
      FirstNameIsNamed(modules, calls[1..], group);
    }
  }

  lemma SameEntries(modules: Modules, calls: seq<Call>, others: seq<Call>, group: Group)
    requires SameCalls(calls, others) && NamesAgree(modules, calls)
    requires group in GroupsOf(modules, calls) && group in GroupsOf(modules, others)
    ensures EntryFor(modules, calls, group) == EntryFor(modules, others, group)
  {
    FirstNameIsNamed(modules, calls, group);
    FirstNameIsNamed(modules, others, group);
    assert CallsOf(modules, calls, group) == CallsOf(modules, others, group);
    assert CasesOf(modules, calls, group) == CasesOf(modules, others, group);
  }

  lemma SameAssociations(modules: Modules, calls: seq<Call>, others: seq<Call>)
    requires SameCalls(calls, others) && NamesAgree(modules, calls)
    ensures Associations(modules, calls) == Associations(modules, others)
  {
    assert GroupsOf(modules, calls) == GroupsOf(modules, others);
    var groups := GroupsInOrder(modules, calls);
    forall i | 0 <= i < |groups|
      ensures Associations(modules, calls)[i] == Associations(modules, others)[i]
    {
      assert groups[i] in groups;
      SameEntries(modules, calls, others, groups[i]);
    }
  }

  lemma EqualAssociationsNameAlike(modules: Modules, calls: seq<Call>, others: seq<Call>, group: Group)
    requires GroupsOf(modules, calls) == GroupsOf(modules, others)
    requires Associations(modules, calls) == Associations(modules, others)
    requires group in GroupsOf(modules, calls)
    ensures FirstName(modules, calls, group) == FirstName(modules, others, group)
  {
    var groups := GroupsInOrder(modules, calls);
    assert group in groups;
    var i :| 0 <= i < |groups| && groups[i] == group;
    assert Associations(modules, calls)[i].testFunction == FirstName(modules, calls, group);
    assert Associations(modules, others)[i].testFunction == FirstName(modules, others, group);
  }

  lemma NamesDiffer(modules: Modules, calls: seq<Call>, c: Call, d: Call)
    requires c in calls && d in calls && GroupOf(modules, c).Some? && GroupOf(modules, c) == GroupOf(modules, d)
    requires c.testFunction != d.testFunction
    ensures SameCalls(calls, [c] + calls) && SameCalls(calls, [d] + calls)
    ensures Associations(modules, [c] + calls) != Associations(modules, [d] + calls)
  {
    var group := GroupOf(modules, c).value;
    assert GroupsOf(modules, [c] + calls) == GroupsOf(modules, calls) == GroupsOf(modules, [d] + calls);
    if Associations(modules, [c] + calls) == Associations(modules, [d] + calls) {
      EqualAssociationsNameAlike(modules, [c] + calls, [d] + calls, group);
    }
  }

  lemma TwoAnswers(modules: Modules, calls: seq<Call>, a: seq<Call>, b: seq<Call>)
    requires SameCalls(calls, a) && SameCalls(calls, b) && Associations(modules, a) != Associations(modules, b)
    ensures !OrderIrrelevant(modules, calls)
  {
  }

  /** Every list of the same calls, in any order and with any repetition, gives the same associations. */
  ghost predicate OrderIrrelevant(modules: Modules, calls: seq<Call>) {
    forall others | SameCalls(calls, others) :: Associations(modules, others) == Associations(modules, calls)
  }

  lemma DisagreementShows(modules: Modules, calls: seq<Call>)
    requires !NamesAgree(modules, calls)
    ensures !OrderIrrelevant(modules, calls)
  {
    var c, d :| c in calls && d in calls && GroupOf(modules, c).Some? && GroupOf(modules, c) == GroupOf(modules, d)
      && c.testFunction != d.testFunction;
    NamesDiffer(modules, calls, c, d);
    TwoAnswers(modules, calls, [c] + calls, [d] + calls);
  }

  /**
   * The associations do not depend on the order of the calls or on repeated ones, exactly when the calls
   * that meet in one group name the same test function.
   */
  lemma OrderIrrelevantExactly(modules: Modules, calls: seq<Call>)
    ensures NamesAgree(modules, calls) <==> OrderIrrelevant(modules, calls)
  {
    if NamesAgree(modules, calls) {
      forall others | SameCalls(calls, others)
        ensures Associations(modules, others) == Associations(modules, calls)
      {
        SameAssociations(modules, calls, others);
      }
    } else {
      DisagreementShows(modules, calls);
    }
  }

  /** Two calls at one test location under two names: the first one names the association. */
  lemma FirstCallNames() returns (calls: seq<Call>)
    ensures |calls| == 2 && SameCalls(calls, [calls[1], calls[0]])
    ensures Associations(map[], calls) != Associations(map[], [calls[1], calls[0]])
  {
    var place, rule := Location("test_rules.py", 1, 0), Reference("rules", "rule");
    var c := Call(Location("test_rules.py", 2, 0), Some("test_a"), Some(place), Some(rule), [], false);
    var d := c.(testFunction := Some("test_b"));
    calls := [c, d];
    var group := Group(place, rule);
    assert GroupOf(map[], c) == Some(group) == GroupOf(map[], d);
    assert c in [c, d] && d in [c, d] && c in [d, c] && d in [d, c];
    assert GroupsOf(map[], [c, d]) == {group} == GroupsOf(map[], [d, c]);
    assert "test_a"[5] != "test_b"[5];
    if Associations(map[], [c, d]) == Associations(map[], [d, c]) {
      EqualAssociationsNameAlike(map[], [c, d], [d, c], group);
    }
  }

  /**
   * A call written against a re-export and a call written against what it re-exports belong to one group.
   */
  lemma ReexportedCallsMeet(modules: Modules, call: Call)
    requires call.rule.Some? && StepFrom(modules, call.rule.value).Follow?
    ensures GroupOf(modules, call)
         == GroupOf(modules, call.(rule := Some(StepFrom(modules, call.rule.value).next)))
  {
    FollowingKeepsTheAnswer(modules, call.rule.value);
  }

  // ---------- The loop ----------

  ghost predicate Grouped(modules: Modules, calls: seq<Call>, grouped: map<Group, Entry>) {
    && grouped.Keys == GroupsOf(modules, calls)
    && forall g <- grouped :: grouped[g] == EntryFor(modules, calls, g)
  }

  lemma GroupsGrow(modules: Modules, calls: seq<Call>, call: Call)
    ensures GroupsOf(modules, calls + [call])
         == GroupsOf(modules, calls) + if GroupOf(modules, call).Some? then {GroupOf(modules, call).value} else {}
  {
  }

  lemma {:induction false} FirstNameStays(modules: Modules, calls: seq<Call>, call: Call, group: Group)
    requires group in GroupsOf(modules, calls + [call])
    ensures FirstName(modules, calls + [call], group)
         == if group in GroupsOf(modules, calls) then FirstName(modules, calls, group) else call.testFunction.value
  {
    if calls == [] {
    } else if GroupOf(modules, calls[0]) == Some(group) {
      assert calls[0] in calls;
    } else {
      assert (calls + [call])[1..] == calls[1..] + [call];
      FirstNameStays(modules, calls[1..], call, group);
    }
  }

  lemma OtherEntriesStay(modules: Modules, calls: seq<Call>, call: Call, group: Group)
    requires group in GroupsOf(modules, calls) && GroupOf(modules, call) != Some(group)
    ensures group in GroupsOf(modules, calls + [call])
    ensures EntryFor(modules, calls + [call], group) == EntryFor(modules, calls, group)
  {
    GroupsGrow(modules, calls, call);
    FirstNameStays(modules, calls, call, group);
    OtherLocationsStay(modules, calls, call, group);
  }

  lemma OtherLocationsStay(modules: Modules, calls: seq<Call>, call: Call, group: Group)
    requires GroupOf(modules, call) != Some(group)
    ensures CallsOf(modules, calls + [call], group) == CallsOf(modules, calls, group)
    ensures CasesOf(modules, calls + [call], group) == CasesOf(modules, calls, group)
    ensures UnknownIn(modules, calls + [call], group) == UnknownIn(modules, calls, group)
  {
  }

  lemma EntryGrows(modules: Modules, calls: seq<Call>, call: Call, group: Group)
    requires GroupOf(modules, call) == Some(group)
    ensures group in GroupsOf(modules, calls + [call])
    ensures EntryFor(modules, calls + [call], group)
         == Entry(if group in GroupsOf(modules, calls) then FirstName(modules, calls, group)
                  else call.testFunction.value,
                  CallsOf(modules, calls, group) + {call.location},
                  CasesOf(modules, calls, group) + (set l | l in call.caseLocations),
                  UnknownIn(modules, calls, group) || call.unknownCaseCount)
  {
    GroupsGrow(modules, calls, call);
    FirstNameStays(modules, calls, call, group);
    LocationsGrow(modules, calls, call, group);
  }

  lemma LocationsGrow(modules: Modules, calls: seq<Call>, call: Call, group: Group)
    requires GroupOf(modules, call) == Some(group)
    ensures CallsOf(modules, calls + [call], group) == CallsOf(modules, calls, group) + {call.location}
    ensures CasesOf(modules, calls + [call], group) ==
            CasesOf(modules, calls, group) + (set l | l in call.caseLocations)
    ensures UnknownIn(modules, calls + [call], group) <==> UnknownIn(modules, calls, group) || call.unknownCaseCount
  {
    assert call in calls + [call];
  }

  lemma NewGroupIsEmpty(modules: Modules, calls: seq<Call>, group: Group)
    requires group !in GroupsOf(modules, calls)
    ensures CallsOf(modules, calls, group) == {} && CasesOf(modules, calls, group) == {}
    ensures !UnknownIn(modules, calls, group)
  {
  }

  /** Add one call of `group` to the groups. */
  method AddCall(modules: Modules, ghost calls: seq<Call>, call: Call, group: Group, grouped: map<Group, Entry>)
    returns (added: map<Group, Entry>)
    requires GroupOf(modules, call) == Some(group) && Grouped(modules, calls, grouped)
    ensures Grouped(modules, calls + [call], added)
  {
    var current := Entry(call.testFunction.value, {}, {}, false);
    if group in grouped {
      current := grouped[group];
    } else {
      NewGroupIsEmpty(modules, calls, group);
    }
    added := grouped[group := Entry(current.testFunction, current.calls + {call.location},
                                    current.cases + (set l | l in call.caseLocations),
                                    current.unknown || call.unknownCaseCount)];
    GroupsGrow(modules, calls, call);
    EntryGrows(modules, calls, call, group);
    forall g <- grouped | g != group
      ensures g in GroupsOf(modules, calls + [call])
      ensures added[g] == EntryFor(modules, calls + [call], g)
    {
      OtherEntriesStay(modules, calls, call, g);
    }
  }

  lemma SkipCall(modules: Modules, calls: seq<Call>, call: Call, grouped: map<Group, Entry>)
    requires GroupOf(modules, call).None? && Grouped(modules, calls, grouped)
    ensures Grouped(modules, calls + [call], grouped)
  {
    GroupsGrow(modules, calls, call);
    forall g <- grouped
      ensures g in GroupsOf(modules, calls + [call])
      ensures grouped[g] == EntryFor(modules, calls + [call], g)
    {
      OtherEntriesStay(modules, calls, call, g);
    }
  }

  method GroupCalls(modules: Modules, calls: seq<Call>) returns (grouped: map<Group, Entry>)
    ensures Grouped(modules, calls, grouped)
  {
    grouped := map[];
    var i := 0;
    assert calls[..i] == [];
    while i < |calls|
      invariant i <= |calls|
      invariant Grouped(modules, calls[..i], grouped)
    {
      assert calls[..i + 1] == calls[..i] + [calls[i]];
      var group := GroupOf(modules, calls[i]);
      if group.None? {
        SkipCall(modules, calls[..i], calls[i], grouped);
      } else {
        grouped := AddCall(modules, calls[..i], calls[i], group.value, grouped);
      }
      i := i + 1;
    }
    assert calls[..i] == calls;
  }

  method ListEntry(group: Group, entry: Entry) returns (association: Association)
    ensures association == Listed(group, entry)
  {
    LocationOrder();
    var calls := SortedOf(entry.calls, LocationLess);
    var cases := SortedOf(entry.cases, LocationLess);
    return Association(group.rule, entry.testFunction, group.location, calls, cases, entry.unknown);
  }

  method ListGroups(modules: Modules, ghost calls: seq<Call>, grouped: map<Group, Entry>) returns (groups: seq<Group>)
    requires grouped.Keys == GroupsOf(modules, calls)
    ensures groups == GroupsInOrder(modules, calls)
  {
    GroupOrder();
    groups := SortedOf(grouped.Keys, GroupLess);
  }

  ghost predicate ListsAll(groups: seq<Group>, grouped: map<Group, Entry>, associations: seq<Association>)
    requires forall g <- groups :: g in grouped
  {
    && |associations| == |groups|
    && forall k :: 0 <= k < |groups| ==> associations[k] == ListedFor(groups, grouped, k)
  }

  ghost function ListedFor(groups: seq<Group>, grouped: map<Group, Entry>, k: nat): Association
    requires forall g <- groups :: g in grouped
    requires k < |groups|
  {
    Listed(groups[k], grouped[groups[k]])
  }

  lemma AllListed(modules: Modules, calls: seq<Call>, grouped: map<Group, Entry>, associations: seq<Association>)
    requires Grouped(modules, calls, grouped)
    requires ListsAll(GroupsInOrder(modules, calls), grouped, associations)
    ensures associations == Associations(modules, calls)
  {
    var groups := GroupsInOrder(modules, calls);
    forall k | 0 <= k < |groups| ensures associations[k] == Associations(modules, calls)[k] {
      assert groups[k] in groups;
      assert associations[k] == ListedFor(groups, grouped, k);
    }
  }

  method ListEntries(groups: seq<Group>, grouped: map<Group, Entry>) returns (associations: seq<Association>)
    requires forall g <- groups :: g in grouped
    ensures ListsAll(groups, grouped, associations)
  {
    associations := [];
    for i := 0 to |groups|
      invariant |associations| == i
      invariant forall k :: 0 <= k < i ==> associations[k] == ListedFor(groups, grouped, k)
    {
      assert groups[i] in groups;
      var association := ListEntry(groups[i], grouped[groups[i]]);
      associations := associations + [association];
    }
  }

  // ---------- What the associations say ----------

  /** By path, then line, then column. */
  ghost predicate StandsBefore(a: Location, b: Location) {
    || TextBefore(a.path, b.path)
    || (a.path == b.path && a.line < b.line)
    || (a.path == b.path && a.line == b.line && a.column < b.column)
  }

  /** By the place of the test, then the name of the rule's module, then the name of the rule. */
  ghost predicate ListedBefore(a: Association, b: Association) {
    || StandsBefore(a.testLocation, b.testLocation)
    || (a.testLocation == b.testLocation && TextBefore(a.rule.moduleName, b.rule.moduleName))
    || (a.testLocation == b.testLocation && a.rule.moduleName == b.rule.moduleName
        && TextBefore(a.rule.symbolName, b.rule.symbolName))
  }

  ghost predicate PlacesRise(places: seq<Location>) {
    forall i, j | 0 <= i < j < |places| :: StandsBefore(places[i], places[j])
  }

  /** The call stands in the test function at this place and evaluates, through re-exports, this rule. */
  ghost predicate Evaluates(modules: Modules, call: Call, test: Location, rule: Reference) {
    && call.testFunction.Some? && call.testLocation == Some(test)
    && call.rule.Some? && Resolve(modules, call.rule.value, {}) == Some(rule)
  }

  /** The first call of the test for the rule names the test function. */
  ghost predicate NamedByFirst(modules: Modules, calls: seq<Call>, a: Association) {
    exists k :: 0 <= k < |calls| && IsFirstOf(modules, calls, a, k)
  }

  ghost predicate IsFirstOf(modules: Modules, calls: seq<Call>, a: Association, k: nat)
    requires k < |calls|
  {
    && Evaluates(modules, calls[k], a.testLocation, a.rule) && calls[k].testFunction == Some(a.testFunction)
    && forall i | 0 <= i < k :: !Evaluates(modules, calls[i], a.testLocation, a.rule)
  }

  /**
   * The association of a test and a rule: the name from the first of their calls, the places of all of them and
   * of all their cases, each once and in order, and whether some call has cases that cannot be counted.
   */
  ghost predicate Gathers(modules: Modules, calls: seq<Call>, a: Association) {
    && NamedByFirst(modules, calls, a)
    && PlacesRise(a.calls) && PlacesRise(a.cases)
    && (forall l :: l in a.calls <==>
                    exists c :: c in calls && Evaluates(modules, c, a.testLocation, a.rule) && c.location == l)
    && (forall l :: l in a.cases <==>
                    exists c :: c in calls && Evaluates(modules, c, a.testLocation, a.rule) && l in c.caseLocations)
    && (a.unknownCaseCount <==>
        exists c :: c in calls && Evaluates(modules, c, a.testLocation, a.rule) && c.unknownCaseCount)
  }

  lemma GroupMeans(modules: Modules, c: Call, group: Group)
    ensures GroupOf(modules, c) == Some(group) <==> Evaluates(modules, c, group.location, group.rule)
  {
  }

  lemma LocationLessMeaning(a: Location, b: Location)
    ensures LocationLess(a, b) <==> StandsBefore(a, b)
  {
    TextLessMeaning(a.path, b.path);
  }

  lemma SortedPlacesRise(places: seq<Location>)
    requires Sorted(places, LocationLess)
    ensures PlacesRise(places)
  {
    forall i, j | 0 <= i < j < |places| ensures StandsBefore(places[i], places[j]) {
      LocationLessMeaning(places[i], places[j]);
    }
  }

  lemma {:induction false} FirstNameMeaning(modules: Modules, calls: seq<Call>, group: Group) returns (k: nat)
    requires group in GroupsOf(modules, calls)
    ensures k < |calls| && GroupOf(modules, calls[k]) == Some(group)
    ensures calls[k].testFunction == Some(FirstName(modules, calls, group))
    ensures forall i | 0 <= i < k :: GroupOf(modules, calls[i]) != Some(group)
  {
    if GroupOf(modules, calls[0]) == Some(group) {
      k := 0;
    } else {
      k := FirstNameMeaning(modules, calls[1..], group);
      assert forall i | 0 < i <= k :: calls[i] == calls[1..][i - 1];
      k := k + 1;
    }
  }

  lemma FirstNames(modules: Modules, calls: seq<Call>, group: Group, a: Association)
    requires group in GroupsOf(modules, calls) && a.rule == group.rule && a.testLocation == group.location
    requires a.testFunction == FirstName(modules, calls, group)
    ensures NamedByFirst(modules, calls, a)
  {
    var k := FirstNameMeaning(modules, calls, group);
    forall i | 0 <= i <= k ensures GroupOf(modules, calls[i]) == Some(group) <==>
                                   Evaluates(modules, calls[i], a.testLocation, a.rule)
    {
      GroupMeans(modules, calls[i], group);
    }
    assert IsFirstOf(modules, calls, a, k);
  }

  lemma PlacesGathered(modules: Modules, calls: seq<Call>, group: Group)
    ensures forall l :: l in CallsOf(modules, calls, group) <==>
              exists c :: c in calls && Evaluates(modules, c, group.location, group.rule) && c.location == l
    ensures forall l :: l in CasesOf(modules, calls, group) <==>
              exists c :: c in calls && Evaluates(modules, c, group.location, group.rule) && l in c.caseLocations
    ensures UnknownIn(modules, calls, group) <==>
            exists c :: c in calls && Evaluates(modules, c, group.location, group.rule) && c.unknownCaseCount
  {
    forall c ensures GroupOf(modules, c) == Some(group) <==> Evaluates(modules, c, group.location, group.rule) {
      GroupMeans(modules, c, group);
    }
  }

  lemma ListedGathers(modules: Modules, calls: seq<Call>, group: Group)
    requires group in GroupsOf(modules, calls)
    ensures Gathers(modules, calls, Listed(group, EntryFor(modules, calls, group)))
  {
    var entry := EntryFor(modules, calls, group);
    var a := Listed(group, entry);
    LocationOrder();
    FirstNames(modules, calls, group, a);
    SortedPlacesRise(a.calls);
    SortedPlacesRise(a.cases);
    PlacesGathered(modules, calls, group);
    assert Lists(a.calls, entry.calls) && Lists(a.cases, entry.cases);
  }

  lemma GroupLessMeaning(a: Association, b: Association)
    requires GroupLess(Group(a.testLocation, a.rule), Group(b.testLocation, b.rule))
    ensures ListedBefore(a, b)
  {
    LocationLessMeaning(a.testLocation, b.testLocation);
    TextLessMeaning(a.rule.moduleName, b.rule.moduleName);
    TextLessMeaning(a.rule.symbolName, b.rule.symbolName);
  }

  lemma AssociationsRise(modules: Modules, calls: seq<Call>)
    ensures var associations := Associations(modules, calls);
      forall i, j | 0 <= i < j < |associations| :: ListedBefore(associations[i], associations[j])
  {
    var associations, groups := Associations(modules, calls), GroupsInOrder(modules, calls);
    GroupOrder();
    forall i, j | 0 <= i < j < |associations| ensures ListedBefore(associations[i], associations[j]) {
      assert GroupLess(groups[i], groups[j]);
      assert groups[i] in groups && groups[j] in groups;
      GroupLessMeaning(associations[i], associations[j]);
    }
  }

  lemma EveryCallCounts(modules: Modules, calls: seq<Call>, c: Call, rule: Reference)
    requires c in calls && c.testLocation.Some? && Evaluates(modules, c, c.testLocation.value, rule)
    ensures exists a :: a in Associations(modules, calls) && a.testLocation == c.testLocation.value && a.rule == rule
  {
    var group, groups := Group(c.testLocation.value, rule), GroupsInOrder(modules, calls);
    GroupMeans(modules, c, group);
    assert group in groups;
    var i :| 0 <= i < |groups| && groups[i] == group;
    assert Associations(modules, calls)[i] in Associations(modules, calls);
  }

  lemma AllGather(modules: Modules, calls: seq<Call>)
    ensures forall a <- Associations(modules, calls) :: Gathers(modules, calls, a)
  {
    var associations, groups := Associations(modules, calls), GroupsInOrder(modules, calls);
    forall a <- associations ensures Gathers(modules, calls, a) {
      var i :| 0 <= i < |associations| && associations[i] == a;
      assert groups[i] in groups;
      ListedGathers(modules, calls, groups[i]);
    }
  }

  /**
   * One association for every test and every rule that some call of the test evaluates, in the order of tests
   * and rules.
   */
  method Associate(modules: Modules, calls: seq<Call>) returns (associations: seq<Association>)
    ensures associations == Associations(modules, calls)
    ensures forall i, j | 0 <= i < j < |associations| :: ListedBefore(associations[i], associations[j])
    ensures forall a <- associations :: Gathers(modules, calls, a)
    ensures forall c, rule | c in calls && c.testLocation.Some? && Evaluates(modules, c, c.testLocation.value, rule) ::
              exists a :: a in associations && a.testLocation == c.testLocation.value && a.rule == rule
  {
    var grouped := GroupCalls(modules, calls);
    var groups := ListGroups(modules, calls, grouped);
    associations := ListEntries(groups, grouped);
    AllListed(modules, calls, grouped, associations);
    AssociationsRise(modules, calls);
    AllGather(modules, calls);
    forall c, rule | c in calls && c.testLocation.Some? && Evaluates(modules, c, c.testLocation.value, rule)
      ensures exists a :: a in associations && a.testLocation == c.testLocation.value && a.rule == rule
    {
      EveryCallCounts(modules, calls, c, rule);
    }
  }
}
