/**
 * A student of the program (class `Student` of mcitSim.py): the courses
 * taken so far, how often each course was found full, how many terms were
 * spent without a course, and whether the graduation rule has been met.
 */
module Students {
  import opened Wrappers
  import opened Catalog
  import opened Dicts
  import opened Policies
  import opened PolicyProperties

  /** The graduation rule of lines 256-257: the whole core and at least ten courses. */
  predicate Graduates(taken: set<Code>) {
    CoreSet <= taken && |taken| >= 10
  }

  /** A graduate has taken at least four electives besides the six core courses. */
  lemma GraduateElectives(taken: set<Code>)
    requires Graduates(taken)
    ensures |taken - CoreSet| >= 4
  {
    assert |CoreSet| == 6;
    assert taken == CoreSet + (taken - CoreSet);
  }

  /** How often a course was found full so far (0 when it never was). */
  function Tally(trials: map<Code, nat>, c: Code): nat {
    if c in trials then trials[c] else 0
  }

  /**
   * Course `k` may be registered for by a student who has taken `t`, once
   * the courses `chosen` are registered for this term: it is not taken, and
   * either its prerequisites are met or it is jointly eligible and its
   * companion key is among `chosen`.
   */
  ghost predicate Allowed(g: Graph, t: set<Code>, k: Code, chosen: seq<Code>)
    requires WellFormed(g)
  {
    && k in g.entries
    && k !in t
    && (PrereqsMet(g.entries[k], t) || (JointlyEligible(g, t, k) && CompanionKey(g, t, k) in chosen))
  }

  /** A term's selection: no course twice, each allowed by the courses selected before it. */
  ghost predicate Eligible(g: Graph, t: set<Code>, selected: seq<Code>)
    requires WellFormed(g)
  {
    && Distinct(selected)
    && forall i :: 0 <= i < |selected| ==> Allowed(g, t, selected[i], selected[..i])
  }

  /** Every key of the remaining options is allowed once `chosen` are registered for. */
  ghost predicate PoolKeys(g: Graph, t: set<Code>, options: OptionDict, chosen: seq<Code>)
    requires WellFormed(g)
  {
    forall k :: k in options.vals ==> options.vals[k].Some? && Allowed(g, t, k, chosen)
  }

  /** No remaining option has been selected already. */
  ghost predicate Fresh(options: OptionDict, selected: seq<Code>) {
    forall k :: k in options.vals ==> k !in selected
  }

  /** The courses found full: each once, gone from the options, not selected, and allowed. */
  ghost predicate Rejected(g: Graph, t: set<Code>, options: OptionDict, selected: seq<Code>, failed: seq<Code>)
    requires WellFormed(g)
  {
    && Distinct(failed)
    && forall c :: c in failed ==> c !in options.vals && c !in selected && Allowed(g, t, c, selected)
  }

  /**
   * The trial counts `now` are the counts `before` raised by one for each
   * course of `failed`, which holds no course twice (lines 241-243).
   */
  ghost predicate Counted(before: map<Code, nat>, now: map<Code, nat>, failed: seq<Code>) {
    && (forall c :: c in now <==> c in before || c in failed)
    && (forall c :: c in now ==> now[c] == Tally(before, c) + (if c in failed then 1 else 0))
  }

  lemma CountedStep(before: map<Code, nat>, now: map<Code, nat>, failed: seq<Code>, m: Code)
    requires Counted(before, now, failed) && m !in failed
    ensures Counted(before, now[m := Tally(now, m) + 1], failed + [m])
  {
  }

  /** Every selected course had a free seat and every rejected course was full. */
  ghost predicate Seats(courseCatalog: map<Code, Course>, selected: seq<Code>, failed: seq<Code>)
    reads courseCatalog.Values
  {
    && (forall c :: c in selected && c in courseCatalog ==> courseCatalog[c].numEnrolled < courseCatalog[c].capacity)
    && (forall c :: c in failed && c in courseCatalog ==> courseCatalog[c].numEnrolled >= courseCatalog[c].capacity)
  }

  /** The state of chooseCourse's loop between two draws. */
  ghost predicate Drawing(g: Graph, t: set<Code>, options: OptionDict, selected: seq<Code>, failed: seq<Code>)
    requires WellFormed(g)
  {
    && Valid(options)
    && PoolKeys(g, t, options, selected)
    && CompanionsSound(g, t, options)
    && Fresh(options, selected)
    && Eligible(g, t, selected)
    && Rejected(g, t, options, selected, failed)
  }

  /** The dictionary getCourseOptions returns satisfies the loop's invariant before the first draw. */
  lemma DrawingStart(g: Graph, t: set<Code>)
    requires WellFormed(g)
    ensures CourseOptions(g, t).Ok?
    ensures Drawing(g, t, CourseOptions(g, t).value, [], [])
  {
    OptionKeys(g, t);
    OptionValues(g, t);
    CourseOptionsShape(g, t);
    var d := CourseOptions(g, t).value;
    forall k, x | k in d.vals && d.vals[k].Some? && x in d.vals[k].value
      ensures JointlyEligible(g, t, x) && CompanionKey(g, t, x) == k
    {
      CompanionsJointlyEligible(g, t, k, x);
    }
  }

  /** A course allowed by some chosen courses stays allowed when more are chosen. */
  lemma AllowedGrows(g: Graph, t: set<Code>, k: Code, chosen: seq<Code>, m: Code)
    requires WellFormed(g) && Allowed(g, t, k, chosen)
    ensures Allowed(g, t, k, chosen + [m])
  {
  }

  /**
   * The state while the companions of `m`, the course just registered for,
   * are added to the options (lines 233-234): its companions may already be
   * options, allowed once `m` counts as chosen.
   */
  ghost predicate Registering(g: Graph, t: set<Code>, options: OptionDict, selected: seq<Code>, failed: seq<Code>, m: Code, cos: seq<Code>)
    requires WellFormed(g)
  {
    && Valid(options)
    && PoolKeys(g, t, options, selected + [m])
    && CompanionsSound(g, t, options)
    && Fresh(options, selected)
    && Eligible(g, t, selected)
    && Rejected(g, t, options, selected, failed)
    && m in options.vals && options.vals[m] == Some(cos)
    && Allowed(g, t, m, selected)
  }

  /** Once option `m` is picked, its list is `Some` and every remaining key is allowed with `m` chosen. */
  lemma RegisterStart(g: Graph, t: set<Code>, options: OptionDict, selected: seq<Code>, failed: seq<Code>, m: Code)
    requires WellFormed(g) && Drawing(g, t, options, selected, failed) && m in options.vals
    ensures options.vals[m].Some?
    ensures Registering(g, t, options, selected, failed, m, options.vals[m].value)
  {
    forall k | k in options.vals ensures options.vals[k].Some? && Allowed(g, t, k, selected + [m]) {
      AllowedGrows(g, t, k, selected, m);
    }
  }

  /** A companion of the course being registered for is jointly eligible, neither selected nor rejected. */
  lemma CompanionFacts(g: Graph, t: set<Code>, options: OptionDict, selected: seq<Code>, failed: seq<Code>, m: Code, cos: seq<Code>, x: Code)
    requires WellFormed(g) && Registering(g, t, options, selected, failed, m, cos) && x in cos
    ensures JointlyEligible(g, t, x) && CompanionKey(g, t, x) == m
    ensures x != m && x !in failed && x !in selected
  {
    assert options.vals[m].Some? && x in options.vals[m].value;
    assert JointlyEligible(g, t, x) && CompanionKey(g, t, x) == m;
    assert m !in selected;
    CompanionWaits(g, t, selected, m, x);
    SelectedAllowed(g, t, selected);
  }

  /** A companion of `m` is not allowed while `m` is not chosen: its own prerequisites are unmet. */
  lemma CompanionWaits(g: Graph, t: set<Code>, chosen: seq<Code>, m: Code, x: Code)
    requires WellFormed(g) && JointlyEligible(g, t, x) && CompanionKey(g, t, x) == m && m !in chosen
    ensures !Allowed(g, t, x, chosen)
  {
  }

  /** Every course of an eligible selection is allowed with the whole selection chosen. */
  lemma SelectedAllowed(g: Graph, t: set<Code>, selected: seq<Code>)
    requires WellFormed(g) && Eligible(g, t, selected)
    ensures forall c :: c in selected ==> Allowed(g, t, c, selected)
  {
    forall c | c in selected ensures Allowed(g, t, c, selected) {
      var i :| 0 <= i < |selected| && selected[i] == c;
      assert Allowed(g, t, c, selected[..i]);
    }
  }

  /**
   * `r` is `options` with every course of `done` made a key with an empty
   * list; no other key is added or changed.
   */
  ghost predicate Listed(options: OptionDict, r: OptionDict, done: seq<Code>) {
    && (forall x :: x in r.vals <==> x in options.vals || x in done)
    && (forall x :: x in done ==> r.vals[x] == Some([]))
    && (forall k :: k in options.vals && k !in done ==> r.vals[k] == options.vals[k])
  }

  lemma ListedStep(options: OptionDict, r: OptionDict, cos: seq<Code>, i: nat)
    requires Valid(r) && i < |cos| && Listed(options, r, cos[..i])
    ensures Listed(options, Insert(r, cos[i], Some([])), cos[..i + 1])
  {
    assert cos[..i + 1] == cos[..i] + [cos[i]];
  }

  /** The companions of `m`: jointly eligible, listed under `m`, neither selected nor rejected. */
  ghost predicate Companions(g: Graph, t: set<Code>, selected: seq<Code>, failed: seq<Code>, m: Code, cos: seq<Code>)
    requires WellFormed(g)
  {
    forall x :: x in cos ==> JointlyEligible(g, t, x) && CompanionKey(g, t, x) == m && x != m && x !in failed && x !in selected
  }

  lemma AllCompanions(g: Graph, t: set<Code>, options: OptionDict, selected: seq<Code>, failed: seq<Code>, m: Code, cos: seq<Code>)
    requires WellFormed(g) && Registering(g, t, options, selected, failed, m, cos)
    ensures Companions(g, t, selected, failed, m, cos)
  {
    forall x | x in cos
      ensures JointlyEligible(g, t, x) && CompanionKey(g, t, x) == m && x != m && x !in failed && x !in selected
    {
      CompanionFacts(g, t, options, selected, failed, m, cos, x);
    }
  }

  /** Listing the companions keeps every key allowed once `m` is chosen. */
  lemma ListedKeys(g: Graph, t: set<Code>, options: OptionDict, r: OptionDict, selected: seq<Code>, failed: seq<Code>, m: Code, cos: seq<Code>)
    requires WellFormed(g) && PoolKeys(g, t, options, selected + [m]) && Companions(g, t, selected, failed, m, cos)
    requires Listed(options, r, cos)
    ensures PoolKeys(g, t, r, selected + [m])
  {
    forall k | k in r.vals ensures r.vals[k].Some? && Allowed(g, t, k, selected + [m]) {
      if k in cos {
        assert CompanionKey(g, t, k) in selected + [m];
      }
    }
  }

  /** Listing the companions adds only empty lists, so every listed companion stays sound. */
  lemma ListedPool(g: Graph, t: set<Code>, options: OptionDict, r: OptionDict, cos: seq<Code>)
    requires WellFormed(g) && CompanionsSound(g, t, options) && Listed(options, r, cos)
    ensures CompanionsSound(g, t, r)
  {
    forall k, x | k in r.vals && r.vals[k].Some? && x in r.vals[k].value
      ensures JointlyEligible(g, t, x) && CompanionKey(g, t, x) == k
    {
      assert k !in cos;
    }
  }

  /** The options after listing: the old ones, with an empty list for each course of `done`. */
  lemma ListedVals(options: OptionDict, r: OptionDict, done: seq<Code>)
    requires Listed(options, r, done)
    ensures r.vals == options.vals + map x | x in done :: Some([])
  {
  }

  /** Listing the companions of `m` keeps the registration state. */
  lemma ListedRegistering(g: Graph, t: set<Code>, options: OptionDict, r: OptionDict, selected: seq<Code>, failed: seq<Code>, m: Code, cos: seq<Code>)
    requires WellFormed(g) && Registering(g, t, options, selected, failed, m, cos)
    requires Valid(r) && Listed(options, r, cos)
    ensures Registering(g, t, r, selected, failed, m, cos)
  {
    AllCompanions(g, t, options, selected, failed, m, cos);
    ListedKeys(g, t, options, r, selected, failed, m, cos);
    ListedPool(g, t, options, r, cos);
    assert m !in cos;
  }

  /**
   * Lines 233-234: each companion of `m` becomes an option with an empty
   * list, the new ones appended to the order; no other option changes.
   */
  method ListCompanions(g: Graph, ghost t: set<Code>, options: OptionDict, ghost selected: seq<Code>, ghost failed: seq<Code>,
                        m: Code, cos: seq<Code>) returns (r: OptionDict)
    requires WellFormed(g) && Registering(g, t, options, selected, failed, m, cos)
    ensures Registering(g, t, r, selected, failed, m, cos)
    ensures Listed(options, r, cos)
    ensures r.keys == options.keys + Appended(options.keys, cos)
  {
    r := options;
    for i := 0 to |cos|
      invariant Valid(r)
      invariant Listed(options, r, cos[..i])
      invariant r.keys == options.keys + Appended(options.keys, cos[..i])
    {
      ListedStep(options, r, cos, i);
      InsertAppended(options.keys, r, cos, i, Some([]));
      r := Insert(r, cos[i], Some([]));
    }
    assert cos[..|cos|] == cos;
    ListedRegistering(g, t, options, r, selected, failed, m, cos);
  }

  /**
   * Lines 233-236 for option `m`, which has a free seat: its companions
   * become options, it leaves the options and is selected.
   */
  method TakeCourse(g: Graph, ghost t: set<Code>, ghost offered: OptionDict, options: OptionDict, selected: seq<Code>,
                    ghost failed: seq<Code>, m: Code) returns (options': OptionDict, selected': seq<Code>)
    requires WellFormed(g) && Round(g, t, offered, options, selected, failed) && m in options.vals && |selected| < 2
    ensures Round(g, t, offered, options', selected', failed)
    ensures selected' == selected + [m]
    ensures m !in options'.vals
    ensures forall x :: x in options'.vals <==> x != m && (x in options.vals || x in options.vals[m].value)
    ensures options'.vals == (options.vals + map x | x in options.vals[m].value :: Some([])) - {m}
    ensures forall i :: 0 <= i < |options.keys| && options.keys[i] == m ==>
              options'.keys == options.keys[..i] + options.keys[i + 1..] + Appended(options.keys, options.vals[m].value)
  {
    RegisterStart(g, t, options, selected, failed, m);
    var coCurrent := options.vals[m].value;
    options' := ListCompanions(g, t, options, selected, failed, m, coCurrent);
    ListedVals(options, options', coCurrent);
    Registered(g, t, offered, options', selected, failed, m, coCurrent);
    RemoveEarlier(options', options.keys, Appended(options.keys, coCurrent), m);
    options' := Remove(options', m);
    selected' := selected + [m];
  }

  /**
   * chooseCourse's loop between two draws, with `offered` the options it
   * started from: at most two courses selected, and while none is, every
   * offered course is still an option or was found full.
   */
  ghost predicate Round(g: Graph, t: set<Code>, offered: OptionDict, options: OptionDict, selected: seq<Code>, failed: seq<Code>)
    requires WellFormed(g)
  {
    && Drawing(g, t, options, selected, failed)
    && |selected| <= 2
    && (selected == [] ==> forall k :: k in offered.vals ==> k in options.vals || k in failed)
  }

  /** Lines 235-236: the course leaves the options and joins the selection. */
  lemma Registered(g: Graph, t: set<Code>, offered: OptionDict, options: OptionDict, selected: seq<Code>, failed: seq<Code>, m: Code, cos: seq<Code>)
    requires WellFormed(g) && Registering(g, t, options, selected, failed, m, cos) && |selected| < 2
    ensures Round(g, t, offered, Remove(options, m), selected + [m], failed)
  {
    RegisteredEligible(g, t, selected, m);
    RegisteredRejected(g, t, options, selected, failed, m);
    RemovedPool(g, t, options, selected + [m], m);
    RemovedFresh(options, selected, m);
  }

  /** What the loop leaves when it ends. */
  lemma RoundEnd(g: Graph, t: set<Code>, offered: OptionDict, options: OptionDict, selected: seq<Code>, failed: seq<Code>)
    requires WellFormed(g) && Round(g, t, offered, options, selected, failed)
    requires selected != [] || |options.keys| == 0
    ensures |selected| <= 2 && Eligible(g, t, selected)
    ensures Distinct(failed) && forall c :: c in failed ==> c !in selected
    ensures forall c :: c in failed ==> Allowed(g, t, c, selected)
    ensures selected == [] ==> forall k :: k in offered.vals ==> k in failed
  {
  }

  lemma RegisteredEligible(g: Graph, t: set<Code>, selected: seq<Code>, m: Code)
    requires WellFormed(g) && Eligible(g, t, selected) && m !in selected && Allowed(g, t, m, selected)
    ensures Eligible(g, t, selected + [m])
  {
    var s := selected + [m];
    assert s[..|selected|] == selected;
    forall i | 0 <= i < |selected| ensures Allowed(g, t, s[i], s[..i]) {
      assert s[..i] == selected[..i];
    }
  }

  lemma RegisteredRejected(g: Graph, t: set<Code>, options: OptionDict, selected: seq<Code>, failed: seq<Code>, m: Code)
    requires WellFormed(g) && Valid(options) && Rejected(g, t, options, selected, failed) && m in options.vals
    ensures Rejected(g, t, Remove(options, m), selected + [m], failed)
  {
    forall c | c in failed ensures Allowed(g, t, c, selected + [m]) {
      AllowedGrows(g, t, c, selected, m);
    }
  }

  /** Lines 240-243: a full course leaves the options and is counted as rejected. */
  lemma Refused(g: Graph, t: set<Code>, offered: OptionDict, options: OptionDict, selected: seq<Code>, failed: seq<Code>, m: Code)
    requires WellFormed(g) && Round(g, t, offered, options, selected, failed) && m in options.vals
    ensures Round(g, t, offered, Remove(options, m), selected, failed + [m])
  {
    RemovedPool(g, t, options, selected, m);
    RemovedFresh(options, selected, m);
    RefusedRejected(g, t, options, selected, failed, m);
  }

  /** Dropping an option keeps the remaining keys allowed and their companions sound. */
  lemma RemovedPool(g: Graph, t: set<Code>, options: OptionDict, chosen: seq<Code>, m: Code)
    requires WellFormed(g) && Valid(options) && PoolKeys(g, t, options, chosen) && CompanionsSound(g, t, options)
    ensures PoolKeys(g, t, Remove(options, m), chosen) && CompanionsSound(g, t, Remove(options, m))
  {
    RemovedKeys(g, t, options, chosen, m);
    RemovedCompanions(g, t, options, m);
  }

  lemma RemovedKeys(g: Graph, t: set<Code>, options: OptionDict, chosen: seq<Code>, m: Code)
    requires WellFormed(g) && Valid(options) && PoolKeys(g, t, options, chosen)
    ensures PoolKeys(g, t, Remove(options, m), chosen)
  {
    var r := Remove(options, m);
    forall k | k in r.vals ensures r.vals[k].Some? && Allowed(g, t, k, chosen) {
      assert r.vals[k] == options.vals[k];
    }
  }

  lemma RemovedCompanions(g: Graph, t: set<Code>, options: OptionDict, m: Code)
    requires WellFormed(g) && Valid(options) && CompanionsSound(g, t, options)
    ensures CompanionsSound(g, t, Remove(options, m))
  {
    var r := Remove(options, m);
    assert forall k :: k in r.vals ==> k in options.vals && r.vals[k] == options.vals[k];
    FewerCompanions(g, t, options, r);
  }

  /** Keeping some of the options, unchanged, keeps their companions sound. */
  lemma FewerCompanions(g: Graph, t: set<Code>, options: OptionDict, r: OptionDict)
    requires WellFormed(g) && CompanionsSound(g, t, options)
    requires forall k :: k in r.vals ==> k in options.vals && r.vals[k] == options.vals[k]
    ensures CompanionsSound(g, t, r)
  {
    forall k, x | k in r.vals && r.vals[k].Some? && x in r.vals[k].value
      ensures JointlyEligible(g, t, x) && CompanionKey(g, t, x) == k
    {
      assert options.vals[k].Some? && x in options.vals[k].value;
    }
  }

  /** The option dropped may join the selection: no remaining option is selected. */
  lemma RemovedFresh(options: OptionDict, selected: seq<Code>, m: Code)
    requires Valid(options) && Fresh(options, selected)
    ensures Fresh(Remove(options, m), selected) && Fresh(Remove(options, m), selected + [m])
  {
  }

  /** A dropped option that was full joins the rejected courses. */
  lemma RefusedRejected(g: Graph, t: set<Code>, options: OptionDict, selected: seq<Code>, failed: seq<Code>, m: Code)
    requires WellFormed(g) && Valid(options) && PoolKeys(g, t, options, selected) && Fresh(options, selected)
    requires Rejected(g, t, options, selected, failed) && m in options.vals
    ensures Rejected(g, t, Remove(options, m), selected, failed + [m])
  {
    assert m !in failed;
  }

  /** The fields of a student (class `Student`) at one moment. */
  datatype Record = Record(courseTaken: set<Code>, registerTrialsOfCourses: map<Code, nat>,
                           coursesNotAvailable: nat, semesterCount: nat, graduated: bool)

  /** The record of a student just admitted (Student.__init__, lines 211-220). */
  const Admitted := Record({}, map[], 0, 0, false)

  ghost function Snapshot(s: Student): Record
    reads s
  {
    Record(s.courseTaken, s.registerTrialsOfCourses, s.coursesNotAvailable, s.semesterCount, s.graduated)
  }

  /**
   * A consistent record: the flag records the graduation rule, at most two
   * courses are taken per term, and a term without a course is still a term.
   */
  ghost predicate Sound(r: Record) {
    && (r.graduated <==> Graduates(r.courseTaken))
    && |r.courseTaken| <= 2 * r.semesterCount
    && r.coursesNotAvailable <= r.semesterCount
  }

  class Student {
    const id: nat
    const startTime: nat
    var courseTaken: set<Code>
    var registerTrialsOfCourses: map<Code, nat>
    var coursesNotAvailable: nat
    var semesterCount: nat
    var graduated: bool

    /** The student's record is consistent. */
    ghost predicate Valid()
      reads this
    {
      Sound(Snapshot(this))
    }

    /** Student.__init__ (lines 211-220). */
    constructor (studentId: nat, startTime: nat)
      ensures id == studentId && this.startTime == startTime
      ensures courseTaken == {} && registerTrialsOfCourses == map[]
      ensures coursesNotAvailable == 0 && semesterCount == 0 && !graduated
      ensures Valid()
    {
      id := studentId;
      this.startTime := startTime;
      courseTaken := {};
      registerTrialsOfCourses := map[];
      coursesNotAvailable := 0;
      semesterCount := 0;
      graduated := false;
    }

    /** isGraduated (lines 260-261): a graduate meets the rule, and needed at least five terms for it. */
    method IsGraduated() returns (r: bool)
      requires Valid()
      ensures r <==> Graduates(courseTaken)
      ensures r ==> semesterCount >= 5
    {
      r := graduated;
    }

    /**
     * updateStudent (lines 248-258): one more term, the courses added, a
     * term without a course counted, and the graduation flag set once the
     * rule is met (it is never cleared).
     */
    method UpdateStudent(courses: seq<Code>)
      modifies this
      ensures semesterCount == old(semesterCount) + 1
      ensures courseTaken == old(courseTaken) + (set c | c in courses)
      ensures coursesNotAvailable == old(coursesNotAvailable) + (if |courses| == 0 then 1 else 0)
      ensures graduated == (old(graduated) || Graduates(courseTaken))
      ensures registerTrialsOfCourses == old(registerTrialsOfCourses)
      ensures old(Valid()) && |courses| <= 2 ==> Valid()
    {
      ghost var before := courseTaken;
      semesterCount := semesterCount + 1;
      courseTaken := courseTaken + (set c | c in courses);
      if |courses| == 0 {
        coursesNotAvailable := coursesNotAvailable + 1;
      }
      if CoreSet <= courseTaken && |courseTaken| >= 10 {
        graduated := true;
      }
      SetOfSeqSize(courses);
      UnionSize(before, set c | c in courses);
      GraduatesGrows(before, courseTaken);
    }

    /**
     * chooseCourse (lines 222-246). `draw(n)` is the random index of the
     * n-th draw among the remaining options and `stop(n)` whether the student
     * stops after registering at that draw. Returns the courses registered
     * for, in order, and (as ghost) the courses found full.
     */
    method ChooseCourse(policy: Policy, courseCatalog: map<Code, Course>, draw: nat -> nat, stop: nat -> bool)
      returns (selected: seq<Code>, ghost failed: seq<Code>)
      requires Valid() && WellFormed(policy.courseGraph)
      requires forall c: Code :: c in courseCatalog
      modifies this
      ensures |selected| <= 2
      ensures Eligible(policy.courseGraph, old(courseTaken), selected)
      ensures forall c :: c in selected ==> courseCatalog[c].numEnrolled < courseCatalog[c].capacity
      ensures forall c :: c in failed ==> courseCatalog[c].numEnrolled >= courseCatalog[c].capacity
      ensures Distinct(failed) && forall c :: c in failed ==> c !in selected
      ensures forall c :: c in failed ==> Allowed(policy.courseGraph, old(courseTaken), c, selected)
      ensures CourseOptions(policy.courseGraph, old(courseTaken)).Ok?
      ensures selected == [] ==> forall k :: k in CourseOptions(policy.courseGraph, old(courseTaken)).value.vals ==> k in failed
      ensures forall c :: c in registerTrialsOfCourses <==> c in old(registerTrialsOfCourses) || c in failed
      ensures forall c :: c in registerTrialsOfCourses ==>
                registerTrialsOfCourses[c] == Tally(old(registerTrialsOfCourses), c) + (if c in failed then 1 else 0)
      ensures semesterCount == old(semesterCount) + 1
      ensures courseTaken == old(courseTaken) + (set c | c in selected)
      ensures coursesNotAvailable == old(coursesNotAvailable) + (if |selected| == 0 then 1 else 0)
      ensures graduated == Graduates(courseTaken)
      ensures Valid()
    {
      var r := GetCourseOptions(policy, courseTaken);
      DrawingStart(policy.courseGraph, courseTaken);
      selected, failed := DrawCourses(policy.courseGraph, r.value, courseCatalog, draw, stop);
      UpdateStudent(selected);
    }

    /**
     * The loop of chooseCourse (lines 227-243) over the options `offered`:
     * draws until two courses are registered for, the options run out, or
     * the student stops after one; a full course is dropped from the options
     * and its trial count raised.
     */
    method DrawCourses(g: Graph, offered: OptionDict, courseCatalog: map<Code, Course>, draw: nat -> nat, stop: nat -> bool)
      returns (selected: seq<Code>, ghost failed: seq<Code>)
      requires WellFormed(g) && Drawing(g, courseTaken, offered, [], [])
      requires forall c: Code :: c in courseCatalog
      modifies this`registerTrialsOfCourses
      ensures |selected| <= 2
      ensures Eligible(g, courseTaken, selected)
      ensures Seats(courseCatalog, selected, failed)
      ensures Distinct(failed) && forall c :: c in failed ==> c !in selected
      ensures forall c :: c in failed ==> Allowed(g, courseTaken, c, selected)
      ensures selected == [] ==> forall k :: k in offered.vals ==> k in failed
      ensures Counted(old(registerTrialsOfCourses), registerTrialsOfCourses, failed)
    {
      var options, trials;
      options, selected, failed, trials := Draws(g, courseTaken, offered, courseCatalog, draw, stop, registerTrialsOfCourses);
      RoundEnd(g, courseTaken, offered, options, selected, failed);
      registerTrialsOfCourses := trials;
    }

  }

  /**
   * The draws of chooseCourse's loop (lines 227-243), from the options
   * `offered` and the trial counts `before`: the `n`-th draw picks
   * `draw(n)` and the student stops after it when `stop(n)`. The loop ends
   * with a course selected or the options used up.
   */
  method Draws(g: Graph, ghost t: set<Code>, offered: OptionDict, courseCatalog: map<Code, Course>, draw: nat -> nat, stop: nat -> bool,
               before: map<Code, nat>)
    returns (options: OptionDict, selected: seq<Code>, ghost failed: seq<Code>, trials: map<Code, nat>)
    requires WellFormed(g) && Drawing(g, t, offered, [], [])
    requires forall c: Code :: c in courseCatalog
    ensures Round(g, t, offered, options, selected, failed)
    ensures selected != [] || |options.keys| == 0
    ensures Seats(courseCatalog, selected, failed)
    ensures Counted(before, trials, failed)
  {
    options := offered;
    trials := before;
    selected := [];
    failed := [];
    var n := 0;
    while |selected| < 2 && |options.keys| >= 1
      invariant Round(g, t, offered, options, selected, failed)
      invariant Seats(courseCatalog, selected, failed)
      invariant Counted(before, trials, failed)
      decreases 2 - |selected|, |options.keys|
    {
      var stopped;
      options, selected, failed, trials, stopped :=
        DrawOnce(g, t, offered, options, selected, failed, courseCatalog, draw(n), stop(n), trials, before);
      if stopped {
        break;
      }
      n := n + 1;
    }
  }

  /**
   * One pass of chooseCourse's loop (lines 229-243): the option at index
   * `pick` (modulo the number of options) is drawn; if it has a free seat
   * its companions become options, it leaves the options and is selected,
   * and the loop stops when `stopHere`; otherwise it leaves the options and
   * its count in `trials` is raised.
   */
  method DrawOnce(g: Graph, ghost t: set<Code>, ghost offered: OptionDict, options: OptionDict, selected: seq<Code>,
                  ghost failed: seq<Code>, courseCatalog: map<Code, Course>, pick: nat, stopHere: bool,
                  trials: map<Code, nat>, ghost before: map<Code, nat>)
    returns (options': OptionDict, selected': seq<Code>, ghost failed': seq<Code>, trials': map<Code, nat>, stopped: bool)
    requires WellFormed(g) && Round(g, t, offered, options, selected, failed)
    requires |selected| < 2 && |options.keys| >= 1
    requires forall c: Code :: c in courseCatalog
    requires Seats(courseCatalog, selected, failed)
    requires Counted(before, trials, failed)
    ensures Round(g, t, offered, options', selected', failed')
    ensures Seats(courseCatalog, selected', failed')
    ensures Counted(before, trials', failed')
    ensures var p := pick % |options.keys|;
            var m := options.keys[p];
            if courseCatalog[m].numEnrolled < courseCatalog[m].capacity
            then && options'.vals == (options.vals + map x | x in options.vals[m].value :: Some([])) - {m}
                 && options'.keys == options.keys[..p] + options.keys[p + 1..] + Appended(options.keys, options.vals[m].value)
                 && selected' == selected + [m] && failed' == failed && stopped == stopHere
            else && options' == Remove(options, m) && |options'.keys| == |options.keys| - 1
                 && options'.keys == options.keys[..p] + options.keys[p + 1..]
                 && selected' == selected && failed' == failed + [m] && !stopped
  {
    var myCourses := options.keys;
    var myCourse := myCourses[pick % |myCourses|];
    var full := courseCatalog[myCourse].IsCourseFull();
    if !full {
      options', selected' := TakeCourse(g, t, offered, options, selected, failed, myCourse);
      failed' := failed;
      trials' := trials;
      stopped := stopHere;
    } else {
      Refused(g, t, offered, options, selected, failed, myCourse);
      CountedStep(before, trials, failed, myCourse);
      options' := Remove(options, myCourse);
      selected' := selected;
      failed' := failed + [myCourse];
      trials' := trials[myCourse := Tally(trials, myCourse) + 1];
      stopped := false;
    }
  }

  /** A sequence holds at most as many distinct elements as it is long. */
  lemma {:induction false} SetOfSeqSize(s: seq<Code>)
    ensures |set c | c in s| <= |s|
  {
    if s != [] {
      SetOfSeqSize(s[1..]);
      assert (set c | c in s) == {s[0]} + (set c | c in s[1..]);
    }
  }

  lemma UnionSize(a: set<Code>, b: set<Code>)
    ensures |a + b| <= |a| + |b|
  {
    assert |a + b| == |a| + |b| - |a * b|;
  }

  /** Taking more courses never undoes graduation. */
  lemma GraduatesGrows(a: set<Code>, b: set<Code>)
    requires a <= b
    ensures Graduates(a) ==> Graduates(b)
  {
    assert |b| == |a| + |b - a|;
  }
}
