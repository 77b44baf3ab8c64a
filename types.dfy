/**
 * The authored structure a text-response question carries, as read-only
 * values. Points and comprehension solutions carry their database ids so that
 * "the same Point" and "the same Solution" are id comparisons, as they are for
 * the records the auto-grading service handles.
 */
module Types {
  import opened Wrappers

  type PointId = nat
  type SolutionId = nat

  /** `TextResponseSolution#solution_type`. */
  datatype PlainKind = ExactMatch | Keyword

  /** A solution of a plain text-response question. */
  datatype PlainSolution = PlainSolution(
    kind: PlainKind,
    solution: string,
    grade: int,
    explanation: Option<string>)

  /** `TextResponseComprehensionSolution#solution_type` (the enum at line 6). */
  datatype CompreKind = LiftedWord | CompreKeyword

  /**
   * A comprehension solution: its surface strings, their lemmas, and the id of
   * the Point it belongs to (`solution.point`).
   */
  datatype CompreSolution = CompreSolution(
    id: SolutionId,
    point: PointId,
    kind: CompreKind,
    solution: seq<string>,
    solutionLemma: seq<string>,
    explanation: Option<string>)

  datatype Point = Point(id: PointId, pointGrade: int, solutions: seq<CompreSolution>)

  datatype Group = Group(groupWeight: int, maximumGroupGrade: int, points: seq<Point>)

  /**
   * A text-response question. `groups` is the stored collection; every reader
   * goes through the weight ordering of `TextResponseGroup.OrderedGroups`.
   */
  datatype Question = Question(
    maximumGrade: int,
    comprehensionQuestion: bool,
    hideText: bool,
    solutions: seq<PlainSolution>,
    groups: seq<Group>)

  /** What `evaluate` hands back: correctness, grade and the feedback lines. */
  datatype GradingResult = GradingResult(correct: bool, grade: int, messages: seq<string>)

  /** Errors the authoring validators add. */
  datatype ValidationError = InvalidGrade | InvalidGroupGrade
}
