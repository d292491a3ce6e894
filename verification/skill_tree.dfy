/** `getSkillTree`'s projection: published modules and their published
    lessons, in order, each marked completed, locked and with a progress
    percentage, unlocking strictly one step at a time. */
module SkillTree {
  import Content
  import ProgressRules

  datatype LessonNode = LessonNode(id: string, title: string, isLocked: bool, isCompleted: bool, progress: int)

  datatype ModuleNode = ModuleNode(id: string, title: string, isLocked: bool, isCompleted: bool,
                                   progress: real, children: seq<LessonNode>)

  /** The lesson nodes of one module. The first is locked unless
      `prevCompleted`; every later one is locked unless the lesson just before
      it is completed. */
  function LessonNodes(ls: seq<Content.Lesson>, completed: set<string>, prevCompleted: bool)
    : (r: seq<LessonNode>)
    ensures |r| == |ls|
    ensures forall i :: 0 <= i < |ls| ==> r[i].id == ls[i].id && r[i].title == ls[i].title
    ensures forall i :: 0 <= i < |ls| ==> (r[i].isCompleted <==> ls[i].id in completed)
    ensures forall i :: 0 <= i < |ls| ==> r[i].progress == (if ls[i].id in completed then 100 else 0)
    ensures |ls| > 0 ==> r[0].isLocked == !prevCompleted
    ensures forall i :: 0 < i < |ls| ==> (r[i].isLocked <==> ls[i - 1].id !in completed)
  {
    if ls == [] then []
    else
      var done := ls[0].id in completed;
      [LessonNode(ls[0].id, ls[0].title, !prevCompleted, done, if done then 100 else 0)]
        + LessonNodes(ls[1..], completed, done)
  }

  function CompletedCount(ls: seq<Content.Lesson>, completed: set<string>): nat {
    |Content.Filter(ls, (l: Content.Lesson) => l.id in completed)|
  }

  /** completed / total * 100, or 0 for a module without lessons. */
  function ModuleProgress(ls: seq<Content.Lesson>, completed: set<string>): (r: real)
    ensures 0.0 <= r <= 100.0
    ensures |ls| == 0 ==> r == 0.0
    ensures |ls| > 0 ==> r * (|ls| as real) == (CompletedCount(ls, completed) as real) * 100.0
    ensures r == 100.0 <==> |ls| > 0 && forall i :: 0 <= i < |ls| ==> ls[i].id in completed
  {
    if |ls| > 0 then
      ProgressRules.Percent(CompletedCount(ls, completed), |ls|)
    else 0.0
  }

  /** A module counts as completed iff it has published lessons and every
      one of them is completed. */
  predicate ModuleDone(m: Content.Module, completed: set<string>) {
    var ls := Content.PublishedLessons(m.lessons);
    |ls| > 0 && forall j :: 0 <= j < |ls| ==> ls[j].id in completed
  }

  /** The node of one module whose predecessor's completion is `prevCompleted`. */
  function ModuleNodeOf(m: Content.Module, completed: set<string>, prevCompleted: bool): (r: ModuleNode)
    ensures r.id == m.id && r.title == m.title
    ensures r.isLocked == !prevCompleted
    ensures r.isCompleted <==> ModuleDone(m, completed)
    ensures r.progress == ModuleProgress(Content.PublishedLessons(m.lessons), completed)
    ensures r.children == LessonNodes(Content.PublishedLessons(m.lessons), completed, prevCompleted)
  {
    var ls := Content.PublishedLessons(m.lessons);
    var progress := ModuleProgress(ls, completed);
    ModuleNode(m.id, m.title, !prevCompleted, progress == 100.0, progress, LessonNodes(ls, completed, prevCompleted))
  }

  /** The module nodes of a course. The first is locked unless
      `prevCompleted`; every later one is locked unless the module before it
      is completed. */
  function ModuleNodes(ms: seq<Content.Module>, completed: set<string>, prevCompleted: bool)
    : (r: seq<ModuleNode>)
    ensures |r| == |ms|
    ensures |ms| > 0 ==> r[0] == ModuleNodeOf(ms[0], completed, prevCompleted)
    ensures forall i :: 0 < i < |ms| ==> r[i] == ModuleNodeOf(ms[i], completed, r[i - 1].isCompleted)
    ensures |ms| > 0 ==> r[0].isLocked == !prevCompleted
    ensures forall i :: 0 < i < |ms| ==> (r[i].isLocked <==> !r[i - 1].isCompleted)
    ensures forall i :: 0 <= i < |ms| ==> (r[i].isCompleted <==> ModuleDone(ms[i], completed))
  {
    if ms == [] then []
    else
      var node := ModuleNodeOf(ms[0], completed, prevCompleted);
      [node] + ModuleNodes(ms[1..], completed, node.isCompleted)
  }

  /** Lesson locks across module boundaries: inside a module a lesson is
      locked exactly when the lesson before it is not completed, and a
      module's first lesson is locked exactly when the module itself is. */
  lemma ChildLocks(ms: seq<Content.Module>, completed: set<string>, prevCompleted: bool, i: nat, j: nat)
    requires i < |ms|
    requires j < |Content.PublishedLessons(ms[i].lessons)|
    ensures var r := ModuleNodes(ms, completed, prevCompleted);
            var ls := Content.PublishedLessons(ms[i].lessons);
            && |r[i].children| == |ls|
            && (j == 0 && i == 0 ==> (r[i].children[j].isLocked <==> !prevCompleted))
            && (j == 0 && i > 0 ==> (r[i].children[j].isLocked <==> !r[i - 1].isCompleted))
            && (j > 0 ==> (r[i].children[j].isLocked <==> ls[j - 1].id !in completed))
            && (r[i].children[j].isCompleted <==> ls[j].id in completed)
  {
    var r := ModuleNodes(ms, completed, prevCompleted);
    var ls := Content.PublishedLessons(ms[i].lessons);
    var prev := if i == 0 then prevCompleted else r[i - 1].isCompleted;
    assert r[i] == ModuleNodeOf(ms[i], completed, prev);
    assert r[i].children == LessonNodes(ls, completed, prev);
  }
}
