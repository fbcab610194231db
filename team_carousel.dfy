/** The team page's carousel: the index of the member on show and the
    direction of the last move, which the slide animation reads. Both arrows
    wrap around the fixed list of members. */
module TeamCarousel {

  datatype TeamMember = TeamMember(name: string, contribution: string)

  datatype Move = Prev | Next

  const TeamMembers: seq<TeamMember> := [
    TeamMember("John Doe", "Lead Developer"),
    TeamMember("Jane Smith", "AI Specialist"),
    TeamMember("Mike Johnson", "Security Expert"),
    TeamMember("Emily Brown", "UX Designer"),
    TeamMember("Alex Lee", "Project Manager")
  ]

  const Count: nat := |TeamMembers|

  /** The functional update of the "next" arrow. */
  function NextIndex(i: int): (r: int)
    ensures 0 <= i < Count ==> r == (i + 1) % Count
  {
    if i < Count - 1 then i + 1 else 0
  }

  /** The functional update of the "previous" arrow. */
  function PrevIndex(i: int): (r: int)
    ensures 0 <= i < Count ==> 0 <= r < Count && NextIndex(r) == i
  {
    if i > 0 then i - 1 else Count - 1
  }

  function Step(i: int, m: Move): int {
    match m
    case Next => NextIndex(i)
    case Prev => PrevIndex(i)
  }

  /** The direction recorded for a move. */
  function DirectionOf(m: Move): (d: int)
    ensures d == 1 || d == -1
    ensures d == 1 <==> m == Next
  {
    if m == Next then 1 else -1
  }

  /** The index after `k` presses of "next". */
  function NextTimes(i: int, k: nat): int {
    if k == 0 then i else NextIndex(NextTimes(i, k - 1))
  }

  class Carousel {
    var currentIndex: int
    var direction: int

    predicate Valid()
      reads this
    {
      0 <= currentIndex < Count && -1 <= direction <= 1
    }

    /** The member shown. */
    function CurrentMember(): (m: TeamMember)
      reads this
      requires Valid()
      ensures m in TeamMembers
    {
      TeamMembers[currentIndex]
    }

    constructor ()
      ensures Valid() && currentIndex == 0 && direction == 0
    {
      currentIndex := 0;
      direction := 0;
    }

    /** `navigateTeam(m)` */
    method Navigate(m: Move)
      requires Valid()
      modifies this
      ensures Valid()
      ensures direction == DirectionOf(m)
      ensures currentIndex == Step(old(currentIndex), m)
    {
      direction := if m == Next then 1 else -1;
      if m == Prev {
        currentIndex := if currentIndex > 0 then currentIndex - 1 else Count - 1;
      } else {
        currentIndex := if currentIndex < Count - 1 then currentIndex + 1 else 0;
      }
    }
  }

  // ---------------------------------------------------------------------
  // Properties

  /** Both arrows keep the index inside the list, so the carousel always has
      a member to show. */
  lemma StepStaysInRange(i: int, m: Move)
    requires 0 <= i < Count
    ensures 0 <= Step(i, m) < Count
  {
  }

  /** Any sequence of presses, started from the first member, stays in range. */
  lemma {:induction false} PressesStayInRange(moves: seq<Move>)
    ensures 0 <= Run(0, moves) < Count
  {
    if moves != [] {
      PressesStayInRange(moves[..|moves| - 1]);
    }
  }

  /** The index after the presses `moves`, in order. */
  function Run(i: int, moves: seq<Move>): int {
    if moves == [] then i else Step(Run(i, moves[..|moves| - 1]), moves[|moves| - 1])
  }

  /** "Next" is "next modulo the number of members", and "previous" is its
      inverse. */
  lemma NextIsSuccessorModCount(i: int)
    requires 0 <= i < Count
    ensures NextIndex(i) == (i + 1) % Count
    ensures PrevIndex(NextIndex(i)) == i && NextIndex(PrevIndex(i)) == i
  {
  }

  /** Pressing "next" `k` times moves `k` places round the circle. */
  lemma {:induction false} NextTimesIsModular(i: int, k: nat)
    requires 0 <= i < Count
    ensures NextTimes(i, k) == (i + k) % Count
  {
    if k > 0 {
      NextTimesIsModular(i, k - 1);
      NextIsSuccessorModCount(NextTimes(i, k - 1));
      ModSuccessor(i + k - 1);
    }
  }

  /** Taking the successor commutes with reducing modulo the count. */
  lemma ModSuccessor(n: nat)
    ensures (n % Count + 1) % Count == (n + 1) % Count
  {
    assert Count == 5;
  }

  /** Pressing "next" once per member comes back to where it started. */
  lemma FullCircle(i: int)
    requires 0 <= i < Count
    ensures NextTimes(i, Count) == i
  {
    NextTimesIsModular(i, Count);
  }
}
