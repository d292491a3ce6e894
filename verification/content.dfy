/** The course catalogue as the services read it: courses hold their modules,
    modules their lessons and lessons their exercises, each sequence already
    in ascending `sortOrder` (the order the database queries ask for).
    Records are found by id, as the database's unique keys find them. */
module Content {
  import opened Wrappers

  datatype Exercise = Exercise(id: string, points: int, correctAnswer: string, alternatives: seq<string>)
  datatype Lesson = Lesson(id: string, title: string, isPublished: bool, exercises: seq<Exercise>)
  datatype Module = Module(id: string, title: string, isPublished: bool, lessons: seq<Lesson>)
  datatype Course = Course(id: string, isPublished: bool, modules: seq<Module>)

  type Catalog = seq<Course>

  /** A lesson together with the course its module belongs to. */
  datatype LessonAt = LessonAt(courseId: string, lesson: Lesson)

  /** The first element whose key is `id`, as a unique-key lookup. */
  function Find<T>(s: seq<T>, key: T -> string, id: string): (r: Option<T>)
    ensures r.Some? ==> r.value in s && key(r.value) == id
    ensures r.None? <==> forall i :: 0 <= i < |s| ==> key(s[i]) != id
  {
    if s == [] then None
    else if key(s[0]) == id then Some(s[0])
    else Find(s[1..], key, id)
  }

  /** The elements satisfying `p`, in their original order. */
  function Filter<T>(s: seq<T>, p: T -> bool): (r: seq<T>)
    ensures |r| <= |s|
    ensures forall i :: 0 <= i < |r| ==> r[i] in s && p(r[i])
    ensures forall i :: 0 <= i < |s| && p(s[i]) ==> s[i] in r
    ensures |r| == |s| <==> forall i :: 0 <= i < |s| ==> p(s[i])
  {
    if s == [] then []
    else if p(s[0]) then [s[0]] + Filter(s[1..], p)
    else Filter(s[1..], p)
  }

  /** Every lesson of every module, published or not. */
  function LessonsOf(ms: seq<Module>): (r: seq<Lesson>)
    ensures forall l :: l in r <==> exists m :: m in ms && l in m.lessons
  {
    if ms == [] then [] else ms[0].lessons + LessonsOf(ms[1..])
  }

  function LessonsAt(courseId: string, ls: seq<Lesson>): (r: seq<LessonAt>)
    ensures forall la :: la in r <==> la.courseId == courseId && la.lesson in ls
  {
    if ls == [] then [] else [LessonAt(courseId, ls[0])] + LessonsAt(courseId, ls[1..])
  }

  /** Every lesson of the catalogue, with the course it belongs to. */
  function AllLessons(cat: Catalog): (r: seq<LessonAt>)
    ensures forall la :: la in r <==>
              exists c :: c in cat && la.courseId == c.id && la.lesson in LessonsOf(c.modules)
  {
    if cat == [] then [] else LessonsAt(cat[0].id, LessonsOf(cat[0].modules)) + AllLessons(cat[1..])
  }

  /** Every exercise of the catalogue. */
  function AllExercises(ls: seq<LessonAt>): (r: seq<Exercise>)
    ensures forall e :: e in r <==> exists la :: la in ls && e in la.lesson.exercises
  {
    if ls == [] then [] else ls[0].lesson.exercises + AllExercises(ls[1..])
  }

  function FindCourse(cat: Catalog, id: string): Option<Course> {
    Find(cat, (c: Course) => c.id, id)
  }

  function FindLesson(cat: Catalog, id: string): Option<LessonAt> {
    Find(AllLessons(cat), (la: LessonAt) => la.lesson.id, id)
  }

  function FindExercise(cat: Catalog, id: string): Option<Exercise> {
    Find(AllExercises(AllLessons(cat)), (e: Exercise) => e.id, id)
  }

  function ExerciseIds(exs: seq<Exercise>): (r: seq<string>)
    ensures |r| == |exs|
    ensures forall i :: 0 <= i < |exs| ==> r[i] == exs[i].id
  {
    seq(|exs|, i requires 0 <= i < |exs| => exs[i].id)
  }

  /** The ids of the exercises of a lesson; none when the lesson is unknown. */
  function LessonExerciseIds(cat: Catalog, lessonId: string): seq<string> {
    match FindLesson(cat, lessonId)
    case None => []
    case Some(la) => ExerciseIds(la.lesson.exercises)
  }

  /** The sum of the points of the exercises. */
  function SumPoints(exs: seq<Exercise>): int {
    if exs == [] then 0 else exs[0].points + SumPoints(exs[1..])
  }

  function PublishedModules(ms: seq<Module>): seq<Module> {
    Filter(ms, (m: Module) => m.isPublished)
  }

  function PublishedLessons(ls: seq<Lesson>): seq<Lesson> {
    Filter(ls, (l: Lesson) => l.isPublished)
  }

  /** The number of published lessons over ALL modules of a course, the
      unpublished modules included. */
  function PublishedLessonCount(ms: seq<Module>): nat {
    if ms == [] then 0 else |PublishedLessons(ms[0].lessons)| + PublishedLessonCount(ms[1..])
  }
}
