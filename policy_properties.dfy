/**
 * What getCourseOptions computes, for every well-formed course graph and
 * every set of courses taken.
 */
module PolicyProperties {
  import opened Wrappers
  import opened Catalog
  import opened Dicts
  import opened Policies

  /** Keys are courses of the graph, not yet taken, with their prerequisites met. */
  ghost predicate KeysSound(g: Graph, taken: set<Code>, options: OptionDict)
  {
    forall k :: k in options.vals ==> k in g.entries && k !in taken && PrereqsMet(g.entries[k], taken)
  }

  /** No value is None and no list holds more than one companion. */
  ghost predicate ValuesSingle(options: OptionDict)
  {
    forall k :: k in options.vals ==> options.vals[k].Some? && |options.vals[k].value| <= 1
  }

  /** Each companion is jointly eligible and listed under its own companion key. */
  ghost predicate CompanionsSound(g: Graph, taken: set<Code>, options: OptionDict)
    requires WellFormed(g)
  {
    forall k, x :: k in options.vals && options.vals[k].Some? && x in options.vals[k].value ==>
      JointlyEligible(g, taken, x) && CompanionKey(g, taken, x) == k
  }

  /** Every visited course that is untaken with prerequisites met is a key. */
  ghost predicate KeysComplete(g: Graph, taken: set<Code>, seen: set<Code>, options: OptionDict)
  {
    forall k :: k in seen && k in g.entries && k !in taken && PrereqsMet(g.entries[k], taken) ==> k in options.vals
  }

  /** Every visited jointly eligible course has made its companion key a key with a non-empty list. */
  ghost predicate CompanionsComplete(g: Graph, taken: set<Code>, seen: set<Code>, options: OptionDict)
    requires WellFormed(g)
  {
    forall x :: x in seen && JointlyEligible(g, taken, x) ==>
      CompanionKey(g, taken, x) in options.vals && options.vals[CompanionKey(g, taken, x)] != Some([])
  }

  /** The invariant of the loop of getCourseOptions once the courses of `seen` have been visited. */
  ghost predicate Shape(g: Graph, taken: set<Code>, seen: set<Code>, options: OptionDict)
    requires WellFormed(g)
  {
    && Valid(options)
    && KeysSound(g, taken, options)
    && ValuesSingle(options)
    && CompanionsSound(g, taken, options)
    && KeysComplete(g, taken, seen, options)
    && CompanionsComplete(g, taken, seen, options)
  }

  /** A visited course that changes nothing keeps the invariant. */
  lemma UnchangedShape(g: Graph, taken: set<Code>, seen: set<Code>, options: OptionDict, key: Code)
    requires WellFormed(g) && key in g.entries && Shape(g, taken, seen, options)
    requires key in taken || (PrereqsMet(g.entries[key], taken) && key in options.vals) || (!PrereqsMet(g.entries[key], taken) && !JointlyEligible(g, taken, key))
    ensures Shape(g, taken, seen + {key}, options)
  {
    assert !JointlyEligible(g, taken, key);
  }

  /** A course with its prerequisites met that is not yet a key becomes one, with an empty list. */
  lemma DirectShape(g: Graph, taken: set<Code>, seen: set<Code>, options: OptionDict, key: Code)
    requires WellFormed(g) && key in g.entries && Shape(g, taken, seen, options)
    requires key !in taken && PrereqsMet(g.entries[key], taken) && key !in options.vals
    ensures Shape(g, taken, seen + {key}, Insert(options, key, Some([])))
  {
    var next := Insert(options, key, Some([]));
    DirectCompanions(g, taken, options, key, next);
    DirectComplete(g, taken, seen, options, key, next);
  }

  lemma DirectCompanions(g: Graph, taken: set<Code>, options: OptionDict, key: Code, next: OptionDict)
    requires WellFormed(g) && CompanionsSound(g, taken, options)
    requires next.vals == options.vals[key := Some([])]
    ensures CompanionsSound(g, taken, next)
  {
    forall k, x | k in next.vals && next.vals[k].Some? && x in next.vals[k].value
      ensures JointlyEligible(g, taken, x) && CompanionKey(g, taken, x) == k
    {
      assert k != key && next.vals[k] == options.vals[k];
    }
  }

  lemma DirectComplete(g: Graph, taken: set<Code>, seen: set<Code>, options: OptionDict, key: Code, next: OptionDict)
    requires WellFormed(g) && key in g.entries && PrereqsMet(g.entries[key], taken)
    requires CompanionsComplete(g, taken, seen, options) && KeysSound(g, taken, options) && ValuesSingle(options)
    requires key !in options.vals && next.vals == options.vals[key := Some([])]
    ensures CompanionsComplete(g, taken, seen + {key}, next)
  {
    assert !JointlyEligible(g, taken, key);
    forall x | x in seen + {key} && JointlyEligible(g, taken, x)
      ensures CompanionKey(g, taken, x) in next.vals && next.vals[CompanionKey(g, taken, x)] != Some([])
    {
      assert CompanionKey(g, taken, x) in options.vals;
    }
  }

  /** A jointly eligible course is listed, alone, under its companion key. */
  lemma JointShape(g: Graph, taken: set<Code>, seen: set<Code>, options: OptionDict, key: Code)
    requires WellFormed(g) && key in g.entries && Shape(g, taken, seen, options)
    requires JointlyEligible(g, taken, key)
    ensures key !in options.vals
    ensures Shape(g, taken, seen + {key}, Insert(options, CompanionKey(g, taken, key), Some([key])))
  {
    var temp := CompanionKey(g, taken, key);
    var next := Insert(options, temp, Some([key]));
    CompanionKeyOutstanding(g, taken, key);
    assert temp in g.entries && temp !in taken && PrereqsMet(g.entries[temp], taken);
    JointCompanions(g, taken, options, key, next);
    JointComplete(g, taken, seen, options, key, next);
  }

  lemma JointCompanions(g: Graph, taken: set<Code>, options: OptionDict, key: Code, next: OptionDict)
    requires WellFormed(g) && JointlyEligible(g, taken, key) && CompanionsSound(g, taken, options)
    requires next.vals == options.vals[CompanionKey(g, taken, key) := Some([key])]
    ensures CompanionsSound(g, taken, next)
  {
    var temp := CompanionKey(g, taken, key);
    forall k, x | k in next.vals && next.vals[k].Some? && x in next.vals[k].value
      ensures JointlyEligible(g, taken, x) && CompanionKey(g, taken, x) == k
    {
      if k != temp {
        assert next.vals[k] == options.vals[k];
      }
    }
  }

  lemma JointComplete(g: Graph, taken: set<Code>, seen: set<Code>, options: OptionDict, key: Code, next: OptionDict)
    requires WellFormed(g) && JointlyEligible(g, taken, key) && CompanionsComplete(g, taken, seen, options)
    requires next.vals == options.vals[CompanionKey(g, taken, key) := Some([key])]
    ensures CompanionsComplete(g, taken, seen + {key}, next)
  {
    var temp := CompanionKey(g, taken, key);
    forall x | x in seen + {key} && JointlyEligible(g, taken, x)
      ensures CompanionKey(g, taken, x) in next.vals && next.vals[CompanionKey(g, taken, x)] != Some([])
    {
      var t := CompanionKey(g, taken, x);
      if t != temp {
        assert x != key;
        assert t in options.vals && options.vals[t] != Some([]);
        assert next.vals[t] == options.vals[t];
      }
    }
  }

  /** One iteration never raises and keeps the invariant. */
  lemma StepShape(g: Graph, taken: set<Code>, seen: set<Code>, options: OptionDict, key: Code)
    requires WellFormed(g) && key in g.entries && Shape(g, taken, seen, options)
    ensures Step(g, taken, options, key).Ok?
    ensures Shape(g, taken, seen + {key}, Step(g, taken, options, key).value)
  {
    var e := g.entries[key];
    if key in taken {
      UnchangedShape(g, taken, seen, options, key);
    } else if PrereqsMet(e, taken) {
      if key in options.vals {
        UnchangedShape(g, taken, seen, options, key);
      } else {
        DirectShape(g, taken, seen, options, key);
      }
    } else if JointlyEligible(g, taken, key) {
      JointShape(g, taken, seen, options, key);
    } else {
      UnchangedShape(g, taken, seen, options, key);
    }
  }

  lemma {:induction false} FoldShape(g: Graph, taken: set<Code>, seen: set<Code>, keys: seq<Code>, options: OptionDict)
    requires WellFormed(g) && Shape(g, taken, seen, options)
    requires forall k :: k in keys ==> k in g.entries
    ensures FoldOptions(g, taken, keys, options).Ok?
    ensures Shape(g, taken, seen + (set k | k in keys), FoldOptions(g, taken, keys, options).value)
    decreases |keys|
  {
    if keys == [] {
      assert seen + (set k | k in keys) == seen;
    } else {
      StepShape(g, taken, seen, options, keys[0]);
      var next := Step(g, taken, options, keys[0]).value;
      FoldShape(g, taken, seen + {keys[0]}, keys[1..], next);
      assert seen + {keys[0]} + (set k | k in keys[1..]) == seen + (set k | k in keys);
    }
  }

  lemma CourseOptionsShape(g: Graph, taken: set<Code>)
    requires WellFormed(g)
    ensures CourseOptions(g, taken).Ok?
    ensures Shape(g, taken, g.entries.Keys, CourseOptions(g, taken).value)
  {
    FoldShape(g, taken, {}, g.order, Empty());
    assert {} + (set k | k in g.order) == g.entries.Keys;
  }

  /**
   * getCourseOptions never raises, and its keys are exactly the courses not
   * yet taken whose prerequisites are all met or which have none.
   */
  lemma OptionKeys(g: Graph, taken: set<Code>)
    requires WellFormed(g)
    ensures CourseOptions(g, taken).Ok?
    ensures forall k :: k in CourseOptions(g, taken).value.vals <==>
              k in g.entries && k !in taken && PrereqsMet(g.entries[k], taken)
  {
    CourseOptionsShape(g, taken);
  }

  /**
   * The None that line 152 could store is never stored, and no list holds
   * more than one companion.
   */
  lemma OptionValues(g: Graph, taken: set<Code>)
    requires WellFormed(g)
    ensures CourseOptions(g, taken).Ok?
    ensures var d := CourseOptions(g, taken).value;
            forall k :: k in d.vals ==> d.vals[k].Some? && |d.vals[k].value| <= 1
  {
    CourseOptionsShape(g, taken);
  }

  /**
   * A course is a companion only when it is jointly eligible, and it is then
   * listed under one of its outstanding corequisites; such a course has
   * unmet prerequisites and so is never itself a key.
   */
  lemma CompanionsJointlyEligible(g: Graph, taken: set<Code>, k: Code, x: Code)
    requires WellFormed(g)
    requires CourseOptions(g, taken).Ok?
    requires var d := CourseOptions(g, taken).value;
             k in d.vals && d.vals[k].Some? && x in d.vals[k].value
    ensures JointlyEligible(g, taken, x)
    ensures k == CompanionKey(g, taken, x) && k in Outstanding(g.entries[x].co.value, taken)
    ensures x !in CourseOptions(g, taken).value.vals
  {
    CourseOptionsShape(g, taken);
    ShapeCompanion(g, taken, CourseOptions(g, taken).value, k, x);
  }

  /** The companion key of a course is one of its outstanding corequisites. */
  lemma CompanionKeyOutstanding(g: Graph, taken: set<Code>, x: Code)
    requires WellFormed(g) && JointlyEligible(g, taken, x)
    ensures CompanionKey(g, taken, x) in Outstanding(g.entries[x].co.value, taken)
  {
  }

  /** What the invariant says of one companion. */
  lemma ShapeCompanion(g: Graph, taken: set<Code>, d: OptionDict, k: Code, x: Code)
    requires WellFormed(g) && KeysSound(g, taken, d) && CompanionsSound(g, taken, d)
    requires k in d.vals && d.vals[k].Some? && x in d.vals[k].value
    ensures JointlyEligible(g, taken, x)
    ensures k == CompanionKey(g, taken, x) && k in Outstanding(g.entries[x].co.value, taken)
    ensures x !in d.vals
  {
    CompanionKeyOutstanding(g, taken, x);
    assert JointlyEligible(g, taken, x);
    assert !PrereqsMet(g.entries[x], taken);
  }

  /**
   * Every jointly eligible course makes its companion key a key with a
   * non-empty list. Because line 152 overwrites the list, only the last of
   * several courses sharing a companion key stays listed.
   */
  lemma JointlyEligibleListed(g: Graph, taken: set<Code>, x: Code)
    requires WellFormed(g) && JointlyEligible(g, taken, x)
    ensures CourseOptions(g, taken).Ok?
    ensures var d := CourseOptions(g, taken).value;
            CompanionKey(g, taken, x) in d.vals && d.vals[CompanionKey(g, taken, x)] != Some([])
  {
    CourseOptionsShape(g, taken);
  }
}
