/** What getCourseOptions returns on the two shipped course graphs. */
module PolicyExamples {
  import opened Wrappers
  import opened Catalog
  import opened Dicts
  import opened Policies
  import opened PolicyProperties

  /** `g` holds the entries of the "no-restrictions" policy for every course. */
  ghost predicate NoRestrictionsLike(g: Graph) {
    forall c :: c in g.entries && g.entries[c] == NoRestrictionsEntry(c)
  }

  lemma NoRestrictionsEntries()
    ensures NoRestrictionsLike(NoRestrictionsGraph)
  {
    forall c ensures c in AllCodes {
      AllCodesComplete(c);
    }
  }

  /** `g` holds the entries of the "core-first" policy for every course. */
  ghost predicate CoreFirstLike(g: Graph) {
    forall c :: c in g.entries && g.entries[c] == CoreFirstEntry(c)
  }

  lemma CoreFirstEntries()
    ensures CoreFirstLike(CoreFirstGraph)
  {
    forall c ensures c in AllCodes {
      AllCodesComplete(c);
    }
  }

  /** With nothing taken, the prerequisites of a course are met exactly when it lists none. */
  lemma NothingTaken(e: Entry)
    ensures PrereqsMet(e, {}) <==> e.pre.None? || e.pre.value == []
  {
    if e.pre.Some? && e.pre.value != [] {
      assert e.pre.value[0] in e.pre.value;
    }
  }

  /** The entry of `x` under either policy, when `x` is in the core. */
  lemma CoreEntry(g: Graph, x: Code)
    requires NoRestrictionsLike(g) || CoreFirstLike(g)
    requires IsCore(x)
    ensures x in g.entries && g.entries[x] == NoRestrictionsEntry(x)
  {
  }

  /**
   * A course whose prerequisites and corequisites leave different courses
   * outstanding, `w` being outstanding among the former only, is not
   * jointly eligible (line 148).
   */
  lemma Mismatched(g: Graph, taken: set<Code>, x: Code, w: Code)
    requires WellFormed(g) && x in g.entries && g.entries[x].pre.Some? && g.entries[x].co.Some?
    requires w in g.entries[x].pre.value && w !in g.entries[x].co.value && w !in taken
    ensures !JointlyEligible(g, taken, x)
  {
    assert w in Outstanding(g.entries[x].pre.value, taken);
  }

  /** Nothing taken, 593 lacks only 591, its corequisite, which has no prerequisites (lines 144-151). */
  lemma FirstTermCompanion(g: Graph)
    requires WellFormed(g) && (NoRestrictionsLike(g) || CoreFirstLike(g))
    ensures JointlyEligible(g, {}, C593) && CompanionKey(g, {}, C593) == C591
  {
    CoreEntry(g, C591);
    CoreEntry(g, C593);
    NothingTaken(g.entries[C593]);
    assert Outstanding([C591], {}) == {C591};
    assert PassCoReq(g, {}, {C591});
  }

  /** Nothing taken, no core course other than 593 can be taken with a companion. */
  lemma FirstTermCoreAlone(g: Graph, x: Code)
    requires WellFormed(g) && (NoRestrictionsLike(g) || CoreFirstLike(g))
    requires IsCore(x) && x != C593
    ensures !JointlyEligible(g, {}, x)
  {
    CoreEntry(g, x);
    NothingTaken(g.entries[x]);
    if x == C596 {
      Mismatched(g, {}, x, C592);
    }
  }

  /** Nothing taken, no elective of either policy can be taken with a companion. */
  lemma FirstTermElectiveAlone(g: Graph, x: Code)
    requires WellFormed(g) && (NoRestrictionsLike(g) || CoreFirstLike(g))
    requires !IsCore(x)
    ensures !JointlyEligible(g, {}, x)
  {
    if NoRestrictionsLike(g) && x == C550 {
      Mismatched(g, {}, x, C591);
    }
  }

  /** Nothing taken, under either policy, 593 is the one course taken together with a companion. */
  lemma FirstTermJoint(g: Graph, x: Code)
    requires WellFormed(g) && (NoRestrictionsLike(g) || CoreFirstLike(g))
    ensures JointlyEligible(g, {}, x) <==> x == C593
  {
    if x == C593 {
      FirstTermCompanion(g);
    } else if IsCore(x) {
      FirstTermCoreAlone(g, x);
    } else {
      FirstTermElectiveAlone(g, x);
    }
  }

  /** Nothing taken, under either policy, a listed companion is 593, listed under 591. */
  lemma FirstTermCompanionOf(g: Graph, d: OptionDict, k: Code, x: Code)
    requires WellFormed(g) && (NoRestrictionsLike(g) || CoreFirstLike(g))
    requires KeysSound(g, {}, d) && CompanionsSound(g, {}, d)
    requires k in d.vals && d.vals[k].Some? && x in d.vals[k].value
    ensures x == C593 && k == C591
  {
    ShapeCompanion(g, {}, d, k, x);
    FirstTermJoint(g, x);
    FirstTermCompanion(g);
  }

  /** Nothing taken, under either policy, 591 carries the list ['593']. */
  lemma FirstTermCompanionList(g: Graph, d: OptionDict)
    requires WellFormed(g) && (NoRestrictionsLike(g) || CoreFirstLike(g))
    requires KeysSound(g, {}, d) && ValuesSingle(d) && CompanionsSound(g, {}, d)
    requires CompanionsComplete(g, {}, g.entries.Keys, d)
    ensures C591 in d.vals && d.vals[C591] == Some([C593])
  {
    FirstTermCompanion(g);
    CoreEntry(g, C593);
    assert C591 in d.vals && d.vals[C591] != Some([]);
    var l := d.vals[C591].value;
    assert l[0] in l;
    FirstTermCompanionOf(g, d, C591, l[0]);
    assert l == [C593];
  }

  /** Nothing taken, under either policy, every key other than 591 carries the empty list. */
  lemma FirstTermEmptyList(g: Graph, d: OptionDict, k: Code)
    requires WellFormed(g) && (NoRestrictionsLike(g) || CoreFirstLike(g))
    requires KeysSound(g, {}, d) && ValuesSingle(d) && CompanionsSound(g, {}, d)
    requires k in d.vals && k != C591
    ensures d.vals[k] == Some([])
  {
    var l := d.vals[k].value;
    if l != [] {
      assert l[0] in l;
      FirstTermCompanionOf(g, d, k, l[0]);
      assert false;
    }
  }

  /** Nothing taken, under either policy: the one non-empty list is ['593'], under 591. */
  lemma FirstTermLists(g: Graph, d: OptionDict)
    requires WellFormed(g) && (NoRestrictionsLike(g) || CoreFirstLike(g))
    requires Shape(g, {}, g.entries.Keys, d)
    ensures C591 in d.vals && d.vals[C591] == Some([C593])
    ensures forall k :: k in d.vals && k != C591 ==> d.vals[k] == Some([])
  {
    FirstTermCompanionList(g, d);
    forall k | k in d.vals && k != C591 ensures d.vals[k] == Some([]) {
      FirstTermEmptyList(g, d, k);
    }
  }

  /** "no-restrictions" lists no prerequisites for 591, 592 and 515 only. */
  lemma UnrestrictedFree(k: Code)
    ensures PrereqsMet(NoRestrictionsEntry(k), {}) <==> k in {C591, C592, C515}
  {
    NothingTaken(NoRestrictionsEntry(k));
  }

  /** "core-first" lists no prerequisites for 591 and 592 only. */
  lemma CoreFirstFree(k: Code)
    ensures PrereqsMet(CoreFirstEntry(k), {}) <==> k in {C591, C592}
  {
    NothingTaken(CoreFirstEntry(k));
    assert C591 in CoreList;
  }

  /** "no-restrictions", nothing taken: the keys are 591, 592 and 515. */
  lemma UnrestrictedFirstKeys(g: Graph, d: OptionDict)
    requires WellFormed(g) && NoRestrictionsLike(g)
    requires KeysSound(g, {}, d) && KeysComplete(g, {}, g.entries.Keys, d)
    ensures d.vals.Keys == {C591, C592, C515}
  {
    forall k ensures k in d.vals <==> k in {C591, C592, C515} {
      UnrestrictedFree(k);
    }
  }

  /** "core-first", nothing taken: the keys are 591 and 592. */
  lemma CoreFirstFirstKeys(g: Graph, d: OptionDict)
    requires WellFormed(g) && CoreFirstLike(g)
    requires KeysSound(g, {}, d) && KeysComplete(g, {}, g.entries.Keys, d)
    ensures d.vals.Keys == {C591, C592}
  {
    forall k ensures k in d.vals <==> k in {C591, C592} {
      CoreFirstFree(k);
    }
  }

  /** "no-restrictions", nothing taken: {'591': ['593'], '592': [], '515': []}. */
  lemma NoRestrictionsFirstTerm()
    ensures WellFormed(NoRestrictionsGraph)
    ensures CourseOptions(NoRestrictionsGraph, {}).Ok?
    ensures CourseOptions(NoRestrictionsGraph, {}).value.vals
         == map[C591 := Some([C593]), C592 := Some([]), C515 := Some([])]
  {
    var g := NoRestrictionsGraph;
    NoRestrictionsWellFormed();
    NoRestrictionsEntries();
    CourseOptionsShape(g, {});
    var d := CourseOptions(g, {}).value;
    UnrestrictedFirstKeys(g, d);
    FirstTermLists(g, d);
  }

  /**
   * "core-first", nothing taken: {'591': ['593'], '592': []}. The electives
   * wait for the whole core, so 515 is no longer offered.
   */
  lemma CoreFirstFirstTerm()
    ensures WellFormed(CoreFirstGraph)
    ensures CourseOptions(CoreFirstGraph, {}).Ok?
    ensures CourseOptions(CoreFirstGraph, {}).value.vals == map[C591 := Some([C593]), C592 := Some([])]
  {
    var g := CoreFirstGraph;
    CoreFirstWellFormed();
    CoreFirstEntries();
    CourseOptionsShape(g, {});
    var d := CourseOptions(g, {}).value;
    CoreFirstFirstKeys(g, d);
    FirstTermLists(g, d);
  }

  /** Under "core-first" an elective carries the whole core as its prerequisite list and no corequisites. */
  lemma CoreFirstElectiveEntry(e: Code)
    requires !IsCore(e)
    ensures e in CoreFirstGraph.entries && CoreFirstGraph.entries[e] == CoreCourseReq
  {
    AllCodesComplete(e);
  }

  /** Having taken every course of CoreList is having taken the core. */
  lemma CoreTaken(taken: set<Code>)
    ensures AllTaken(CoreList, taken) <==> CoreSet <= taken
  {
    if CoreSet <= taken {
      forall x | x in CoreList ensures x in taken {
        AllCodesComplete(x);
      }
    }
    if AllTaken(CoreList, taken) {
      forall x | x in CoreSet ensures x in taken {
        AllCodesComplete(x);
      }
    }
  }

  /**
   * "core-first": an elective is offered exactly when it is untaken and the
   * whole core has been taken, and it is never offered as a companion.
   */
  lemma CoreFirstElectiveLocked(taken: set<Code>, e: Code)
    requires !IsCore(e)
    ensures WellFormed(CoreFirstGraph)
    ensures CourseOptions(CoreFirstGraph, taken).Ok?
    ensures var d := CourseOptions(CoreFirstGraph, taken).value;
            e in d.vals <==> e !in taken && CoreSet <= taken
    ensures var d := CourseOptions(CoreFirstGraph, taken).value;
            forall k :: k in d.vals && d.vals[k].Some? ==> e !in d.vals[k].value
  {
    var g := CoreFirstGraph;
    CoreFirstWellFormed();
    OptionKeys(g, taken);
    CoreFirstElectiveEntry(e);
    CoreTaken(taken);
    var d := CourseOptions(g, taken).value;
    forall k | k in d.vals && d.vals[k].Some? ensures e !in d.vals[k].value {
      if e in d.vals[k].value {
        CompanionsJointlyEligible(g, taken, k, e);
        assert false;
      }
    }
  }

  /** An untaken course with its prerequisites met is a key. */
  lemma Offered(g: Graph, t: set<Code>, k: Code)
    requires WellFormed(g) && k in g.entries && k !in t && PrereqsMet(g.entries[k], t)
    ensures CourseOptions(g, t).Ok? && k in CourseOptions(g, t).value.vals
  {
    OptionKeys(g, t);
  }

  /** A course taken, or missing prerequisite `w`, is not a key. */
  lemma NotOffered(g: Graph, t: set<Code>, k: Code, w: Code)
    requires WellFormed(g) && k in g.entries
    requires k in t || (g.entries[k].pre.Some? && w in g.entries[k].pre.value && w !in t)
    ensures CourseOptions(g, t).Ok? && k !in CourseOptions(g, t).value.vals
  {
    OptionKeys(g, t);
  }

  /** Under "no-restrictions" after 591: 592, 593, 594 and the elective 515 are keys. */
  lemma SecondTermOffered(g: Graph, t: set<Code>)
    requires WellFormed(g) && NoRestrictionsLike(g) && t == {C591}
    ensures CourseOptions(g, t).Ok?
    ensures var keys := CourseOptions(g, t).value.vals;
            C592 in keys && C593 in keys && C594 in keys && C515 in keys
  {
    Offered(g, t, C592);
    Offered(g, t, C593);
    Offered(g, t, C594);
    Offered(g, t, C515);
  }

  /** Under "no-restrictions" after 591, the core courses that are not keys. */
  lemma SecondTermCoreBlocked(g: Graph, t: set<Code>)
    requires WellFormed(g) && NoRestrictionsLike(g) && t == {C591}
    ensures CourseOptions(g, t).Ok?
    ensures var keys := CourseOptions(g, t).value.vals;
            C591 !in keys && C595 !in keys && C596 !in keys
  {
    NotOffered(g, t, C591, C591);
    NotOffered(g, t, C595, C593);
    NotOffered(g, t, C596, C592);
  }

  /** Under "no-restrictions" after 591, the electives that are not keys. */
  lemma SecondTermElectivesBlocked(g: Graph, t: set<Code>)
    requires WellFormed(g) && NoRestrictionsLike(g) && t == {C591}
    ensures CourseOptions(g, t).Ok?
    ensures var keys := CourseOptions(g, t).value.vals;
            C547 !in keys && C549 !in keys && C550 !in keys && C581 !in keys && C542 !in keys
  {
    NotOffered(g, t, C547, C592);
    NotOffered(g, t, C549, C593);
    NotOffered(g, t, C550, C592);
    NotOffered(g, t, C581, C592);
    NotOffered(g, t, C542, C592);
  }

  /** "no-restrictions" after 591: the keys are 592, 593, 594 and 515; 595, 596, 542 and the rest stay out. */
  lemma NoRestrictionsSecondTerm()
    ensures WellFormed(NoRestrictionsGraph)
    ensures CourseOptions(NoRestrictionsGraph, {C591}).Ok?
    ensures CourseOptions(NoRestrictionsGraph, {C591}).value.vals.Keys == {C592, C593, C594, C515}
  {
    NoRestrictionsWellFormed();
    NoRestrictionsEntries();
    var g, t := NoRestrictionsGraph, {C591};
    SecondTermOffered(g, t);
    SecondTermCoreBlocked(g, t);
    SecondTermElectivesBlocked(g, t);
    SecondTermKeySet(CourseOptions(g, t).value.vals.Keys);
  }

  lemma SecondTermKeySet(keys: set<Code>)
    requires C592 in keys && C593 in keys && C594 in keys && C515 in keys
    requires C591 !in keys && C595 !in keys && C596 !in keys && C547 !in keys
    requires C549 !in keys && C550 !in keys && C581 !in keys && C542 !in keys
    ensures keys == {C592, C593, C594, C515}
  {
    forall k ensures k in keys <==> k in {C592, C593, C594, C515} {
      match k
      case C591 => case C592 => case C593 => case C594 => case C595 => case C596 =>
      case C515 => case C547 => case C549 => case C550 => case C581 => case C542 =>
    }
  }
}
