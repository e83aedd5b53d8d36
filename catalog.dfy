/**
 * The twelve course offerings of the program and the seat counter kept for
 * each of them in every term (class `Course` of mcitSim.py).
 */
module Catalog {

  /** The course codes '591' ... '542'. */
  datatype Code = C591 | C592 | C593 | C594 | C595 | C596
                | C515 | C547 | C549 | C550 | C581 | C542

  /** The six core courses, in the order the simulator builds them. */
  const CoreList: seq<Code> := [C591, C592, C593, C594, C595, C596]

  /** The six electives, in the order the simulator builds them. */
  const ElectList: seq<Code> := [C515, C547, C549, C550, C581, C542]

  /** Every course, in catalogue order. */
  const AllCodes: seq<Code> := CoreList + ElectList

  /** The core courses as a set, used by the graduation rule. */
  const CoreSet: set<Code> := {C591, C592, C593, C594, C595, C596}

  predicate IsCore(c: Code) {
    c in CoreSet
  }

  /** The catalogue lists every course exactly once. */
  lemma AllCodesComplete(c: Code)
    ensures c in AllCodes
    ensures IsCore(c) <==> c in CoreList
    ensures !IsCore(c) <==> c in ElectList
  {
    match c
    case C591 => assert AllCodes[0] == c;
    case C592 => assert AllCodes[1] == c;
    case C593 => assert AllCodes[2] == c;
    case C594 => assert AllCodes[3] == c;
    case C595 => assert AllCodes[4] == c;
    case C596 => assert AllCodes[5] == c;
    case C515 => assert AllCodes[6] == c;
    case C547 => assert AllCodes[7] == c;
    case C549 => assert AllCodes[8] == c;
    case C550 => assert AllCodes[9] == c;
    case C581 => assert AllCodes[10] == c;
    case C542 => assert AllCodes[11] == c;
  }

  /** A course offering: a seat counter with a fixed capacity. */
  class Course {
    const id: Code
    const capacity: nat
    var numEnrolled: nat

    constructor (courseId: Code, capacity: nat)
      ensures id == courseId && this.capacity == capacity
      ensures numEnrolled == 0
    {
      id := courseId;
      numEnrolled := 0;
      this.capacity := capacity;
    }

    /** The course is full once the counter reaches the capacity. */
    method IsCourseFull() returns (full: bool)
      ensures full <==> numEnrolled >= capacity
    {
      full := numEnrolled >= capacity;
    }

    /** Takes one more seat, without checking the capacity. */
    method EnrollCourse()
      modifies this
      ensures numEnrolled == old(numEnrolled) + 1
    {
      numEnrolled := numEnrolled + 1;
    }

    /** Frees every seat, at the end of a term. */
    method ResetEnrollment()
      modifies this
      ensures numEnrolled == 0
    {
      numEnrolled := 0;
    }
  }
}
