/**
 * The eligibility resolver (class `Policy` of mcitSim.py): a fixed
 * prerequisite/corequisite graph chosen by name, and the computation of the
 * courses a student may pick this term given the courses already taken.
 */
module Policies {
  import opened Wrappers
  import opened Catalog
  import opened Dicts

  /** The entry of one course: its prerequisite list and its corequisite list, each possibly None. */
  datatype Entry = Entry(pre: Option<seq<Code>>, co: Option<seq<Code>>)

  /** A course graph: a dictionary from course code to entry, iterated in `order`. */
  datatype Graph = Graph(order: seq<Code>, entries: map<Code, Entry>)

  /**
   * The `options` dictionary built by getCourseOptions: each key is a course
   * that may be picked now, its value the courses picking it unlocks in the
   * same term. A value `None` is Python's None.
   */
  type OptionDict = Dict<Code, Option<seq<Code>>>

  /** The exceptions line 152 could raise: a missing key, or `.append` on None. */
  datatype OptionsError = KeyError(course: Code) | NoneAppend(course: Code)

  datatype Policy = Policy(name: string, courseGraph: Graph)

  /** The ValueError raised for an unknown policy name. */
  datatype PolicyError = ValueError(name: string)

  const ListOfPolicies: seq<string> := ["no-restrictions", "core-first"]

  /**
   * A graph the resolver can work with: each course listed once, and every
   * corequisite has an entry of its own (passCoReq looks it up).
   */
  ghost predicate WellFormed(g: Graph) {
    && Distinct(g.order)
    && (forall k :: k in g.order <==> k in g.entries)
    && (forall k, c :: k in g.entries && g.entries[k].co.Some? && c in g.entries[k].co.value ==> c in g.entries)
  }

  /**
   * The entries of the "no-restrictions" policy: the program's real
   * prerequisite chains. No course requires itself, a core course requires
   * only core courses, and every corequisite is also a prerequisite.
   */
  function NoRestrictionsEntry(c: Code): (e: Entry)
    ensures e.pre.Some? ==> c !in e.pre.value
    ensures IsCore(c) && e.pre.Some? ==> forall x :: x in e.pre.value ==> IsCore(x)
    ensures e.co.Some? ==> e.pre.Some? && forall x :: x in e.co.value ==> x in e.pre.value
  {
    match c
    case C591 => Entry(None, None)
    case C592 => Entry(None, None)
    case C593 => Entry(Some([C591]), Some([C591]))
    case C594 => Entry(Some([C591]), None)
    case C595 => Entry(Some([C593]), None)
    case C596 => Entry(Some([C592, C594]), Some([C594]))
    case C515 => Entry(None, None)
    case C547 => Entry(Some([C592, C594, C595]), None)
    case C549 => Entry(Some([C593, C595]), None)
    case C550 => Entry(Some([C591, C592, C596]), Some([C596]))
    case C581 => Entry(Some([C591, C592, C593, C594]), None)
    case C542 => Entry(Some([C592]), None)
  }

  /** Every elective of the "core-first" policy requires the whole core. */
  const CoreCourseReq: Entry := Entry(Some(CoreList), None)

  /**
   * The entries of the "core-first" policy: the core as above, every
   * elective after the whole core. Only core courses have corequisites.
   */
  function CoreFirstEntry(c: Code): (e: Entry)
    ensures e.pre.Some? ==> c !in e.pre.value
    ensures e.co.Some? ==> IsCore(c)
    ensures !IsCore(c) ==> e.pre.Some? && forall x :: IsCore(x) ==> x in e.pre.value
  {
    if IsCore(c) then NoRestrictionsEntry(c) else CoreCourseReq
  }

  /** The graph of the "no-restrictions" policy (lines 99-112). */
  const NoRestrictionsGraph: Graph := Graph(AllCodes, map c | c in AllCodes :: NoRestrictionsEntry(c))

  /** The graph of the "core-first" policy (lines 114-128). */
  const CoreFirstGraph: Graph := Graph(AllCodes, map c | c in AllCodes :: CoreFirstEntry(c))

  lemma AllCodesDistinct()
    ensures Distinct(AllCodes)
  {
  }

  lemma NoRestrictionsWellFormed()
    ensures WellFormed(NoRestrictionsGraph)
  {
    AllCodesDistinct();
    forall k ensures k in AllCodes {
      AllCodesComplete(k);
    }
  }

  lemma CoreFirstWellFormed()
    ensures WellFormed(CoreFirstGraph)
  {
    AllCodesDistinct();
    forall k ensures k in AllCodes {
      AllCodesComplete(k);
    }
  }

  /** Policy.__init__: an unknown name raises ValueError before any graph is set. */
  function NewPolicy(name: string): (r: Result<Policy, PolicyError>)
    ensures r.Err? <==> name !in ListOfPolicies
    ensures r.Err? ==> r.error == ValueError(name)
    ensures r.Ok? ==> r.value.name == name && WellFormed(r.value.courseGraph)
    ensures r.Ok? ==> r.value.courseGraph.order == AllCodes
  {
    NoRestrictionsWellFormed();
    CoreFirstWellFormed();
    if name !in ListOfPolicies then Err(ValueError(name))
    else if name == ListOfPolicies[0] then Ok(Policy(name, NoRestrictionsGraph))
    else Ok(Policy(name, CoreFirstGraph))
  }

  /** Python's `all(item in coursesTaken for item in items)`. */
  predicate AllTaken(items: seq<Code>, taken: set<Code>) {
    forall x :: x in items ==> x in taken
  }

  /** Lines 141-143 and 159-160: no prerequisite list at all, or every prerequisite taken. */
  predicate PrereqsMet(e: Entry, taken: set<Code>) {
    e.pre.None? || AllTaken(e.pre.value, taken)
  }

  /** `set(items) - coursesTaken`. */
  function Outstanding(items: seq<Code>, taken: set<Code>): set<Code> {
    set x | x in items && x !in taken
  }

  /**
   * What passCoReq decides: every course of `remainder` has its own
   * prerequisites met. Nothing outstanding passes; a failure is caused by a
   * course of `remainder` with a prerequisite not taken.
   */
  predicate PassCoReq(g: Graph, taken: set<Code>, remainder: set<Code>): (pass: bool)
    requires remainder <= g.entries.Keys
    ensures remainder == {} ==> pass
    ensures !pass ==> exists co, item :: co in remainder && g.entries[co].pre.Some? && item in g.entries[co].pre.value && item !in taken
  {
    forall co :: co in remainder ==> PrereqsMet(g.entries[co], taken)
  }

  /**
   * passCoReq (lines 156-162): the loop over the outstanding corequisites,
   * in whatever order the set yields them, returning False at the first
   * whose prerequisites are not met.
   */
  method CheckCoReqs(g: Graph, coursesTaken: set<Code>, remainderCoReq: set<Code>) returns (pass: bool)
    requires remainderCoReq <= g.entries.Keys
    ensures pass == PassCoReq(g, coursesTaken, remainderCoReq)
  {
    var rest := remainderCoReq;
    while rest != {}
      invariant rest <= remainderCoReq
      invariant PassCoReq(g, coursesTaken, remainderCoReq - rest)
      decreases |rest|
    {
      var co :| co in rest;
      var coPrereq := g.entries[co].pre;
      if !(coPrereq.None? || AllTaken(coPrereq.value, coursesTaken)) {
        return false;
      }
      rest := rest - {co};
    }
    assert remainderCoReq - rest == remainderCoReq;
    return true;
  }

  /**
   * `list(remainderCoReq)[0]`: one outstanding corequisite. Python's set
   * order is arbitrary; the model takes the first outstanding one in list order.
   */
  function FirstOutstanding(items: seq<Code>, taken: set<Code>): (c: Code)
    requires Outstanding(items, taken) != {}
    ensures c in Outstanding(items, taken)
  {
    if items[0] !in taken then items[0]
    else
      assert Outstanding(items[1..], taken) == Outstanding(items, taken);
      FirstOutstanding(items[1..], taken)
  }

  /**
   * Lines 145-150: `x` is not yet taken and its prerequisites are not all
   * met, but the outstanding prerequisites are exactly the outstanding
   * corequisites and each of those has its own prerequisites met, so `x` may
   * be taken together with them.
   */
  ghost predicate JointlyEligible(g: Graph, taken: set<Code>, x: Code): (eligible: bool)
    requires WellFormed(g)
    ensures eligible ==> x in g.entries && g.entries[x].co.Some? && Outstanding(g.entries[x].co.value, taken) != {}
  {
    && x in g.entries
    && x !in taken
    && !PrereqsMet(g.entries[x], taken)
    && g.entries[x].co.Some?
    && (UnmetOutstanding(g.entries[x], taken);
        Outstanding(g.entries[x].pre.value, taken) == Outstanding(g.entries[x].co.value, taken))
    && PassCoReq(g, taken, Outstanding(g.entries[x].co.value, taken))
  }

  /** A prerequisite list not all taken leaves something outstanding. */
  lemma UnmetOutstanding(e: Entry, taken: set<Code>)
    requires !PrereqsMet(e, taken)
    ensures e.pre.Some? && Outstanding(e.pre.value, taken) != {}
  {
    var y :| y in e.pre.value && y !in taken;
    assert y in Outstanding(e.pre.value, taken);
  }

  /** The key under which a jointly eligible course is listed (line 151). */
  ghost function CompanionKey(g: Graph, taken: set<Code>, x: Code): Code
    requires WellFormed(g) && JointlyEligible(g, taken, x)
  {
    FirstOutstanding(g.entries[x].co.value, taken)
  }

  /** One iteration of the loop of getCourseOptions (lines 137-152) for `key`. */
  function Step(g: Graph, taken: set<Code>, options: OptionDict, key: Code): (r: Result<OptionDict, OptionsError>)
    requires WellFormed(g) && key in g.entries && Valid(options)
    ensures r.Ok? ==> Valid(r.value) && options.vals.Keys <= r.value.vals.Keys
  {
    var e := g.entries[key];
    if key in taken then Ok(options)
    else if e.pre.None? || AllTaken(e.pre.value, taken) then
      Ok(if key !in options.vals then Insert(options, key, Some([])) else options)
    else if e.co.Some? then
      var remainderPreReq := Outstanding(e.pre.value, taken);
      var remainderCoReq := Outstanding(e.co.value, taken);
      if remainderPreReq != remainderCoReq then Ok(options)
      else if PassCoReq(g, taken, remainderCoReq) then
        assert remainderCoReq != {} by {
          var y :| y in e.pre.value && y !in taken;
          assert y in remainderPreReq;
        }
        var temp := FirstOutstanding(e.co.value, taken);
        if key !in options.vals then Ok(Insert(options, temp, Some([key])))
        else if temp !in options.vals then Err(KeyError(temp))
        else if options.vals[temp].None? then Err(NoneAppend(temp))
        else Ok(Insert(options, temp, None))
      else Ok(options)
    else Ok(options)
  }

  /**
   * The loop of getCourseOptions over `keys`, starting from `options`; an
   * exception ends it. A key, once added, is never deleted.
   */
  function FoldOptions(g: Graph, taken: set<Code>, keys: seq<Code>, options: OptionDict): (r: Result<OptionDict, OptionsError>)
    requires WellFormed(g) && Valid(options)
    requires forall k :: k in keys ==> k in g.entries
    ensures r.Ok? ==> Valid(r.value) && options.vals.Keys <= r.value.vals.Keys
    decreases |keys|
  {
    if keys == [] then Ok(options)
    else match Step(g, taken, options, keys[0])
      case Err(e) => Err(e)
      case Ok(next) => FoldOptions(g, taken, keys[1..], next)
  }

  /** getCourseOptions(coursesTaken) on graph `g`, as a function. */
  function CourseOptions(g: Graph, taken: set<Code>): (r: Result<OptionDict, OptionsError>)
    requires WellFormed(g)
    ensures r.Ok? ==> Valid(r.value)
  {
    FoldOptions(g, taken, g.order, Empty())
  }

  /** getCourseOptions (lines 130-154). */
  method GetCourseOptions(policy: Policy, coursesTaken: set<Code>) returns (r: Result<OptionDict, OptionsError>)
    requires WellFormed(policy.courseGraph)
    ensures r == CourseOptions(policy.courseGraph, coursesTaken)
  {
    var g := policy.courseGraph;
    var options: OptionDict := Empty();
    for i := 0 to |g.order|
      invariant Valid(options)
      invariant FoldOptions(g, coursesTaken, g.order[i..], options) == CourseOptions(g, coursesTaken)
    {
      var key := g.order[i];
      assert g.order[i..][0] == key && g.order[i..][1..] == g.order[i + 1..];
      var prerequisites := g.entries[key].pre;
      var corequisites := g.entries[key].co;
      if key in coursesTaken {
      } else if prerequisites.None? {
        if key !in options.vals { options := Insert(options, key, Some([])); }
      } else if AllTaken(prerequisites.value, coursesTaken) {
        if key !in options.vals { options := Insert(options, key, Some([])); }
      } else if corequisites.Some? {
        var remainderPreReq := Outstanding(prerequisites.value, coursesTaken);
        var remainderCoReq := Outstanding(corequisites.value, coursesTaken);
        if remainderPreReq == remainderCoReq {
          var passed := CheckCoReqs(g, coursesTaken, remainderCoReq);
          if passed {
            ghost var y :| y in prerequisites.value && y !in coursesTaken;
            assert y in remainderCoReq;
            var temp := FirstOutstanding(corequisites.value, coursesTaken);
            if key !in options.vals {
              options := Insert(options, temp, Some([key]));
            } else if temp !in options.vals {
              return Err(KeyError(temp));
            } else if options.vals[temp].None? {
              return Err(NoneAppend(temp));
            } else {
              // `options[temp].append(key)` evaluates to None, which is stored
              options := Insert(options, temp, None);
            }
          }
        }
      }
    }
    assert g.order[|g.order|..] == [];
    return Ok(options);
  }
}
