/** The admin panel's state: the list of quizzes, the quiz being edited,
    and the operations the panel's buttons run on it. A quiz is an object
    whose level list and question map the operations update in place. */
module Store {
  import opened Text
  import opened Media
  import opened Levels
  import opened Questions

  /** Why an operation changed nothing: a message the panel shows, a
      declined confirmation, or a handler that throws. */
  datatype Reason =
    | NoQuiz           // "Please create a quiz first!"
    | EmptyName        // "Please enter a quiz name!" / "Please enter a level name!"
    | DuplicateLevel   // "A level with this name already exists in this quiz!"
    | NoLevelSelected  // "Please select a level first!"
    | MissingField     // "Please fill in all question and answer fields!"
    | NotFound         // "Question not found!"
    | Declined         // the user answered No to the confirmation dialog
    | Threw            // the handler throws a TypeError before changing anything

  datatype Status = Done | Rejected(why: Reason)

  class Quiz {
    const id: string
    const name: string
    var levels: seq<Level>
    var questions: map<string, seq<Question>>

    /** Level ids are unique and the orders are `1..N` in list order. */
    predicate Valid()
      reads this
    {
      UniqueIds(levels) && OrdersMatchPositions(levels)
    }

    /** Every question list belongs to a level of this quiz. */
    predicate NoOrphans()
      reads this
    {
      forall k :: k in questions ==> HasLevel(levels, k)
    }

    /** `currentQuiz.questions[levelId] && currentQuiz.questions[levelId][index]` */
    predicate HasQuestion(levelId: string, index: int)
      reads this
    {
      levelId in questions && 0 <= index < |questions[levelId]|
    }

    /** The object literal of `saveQuizName`: no levels and no questions. */
    constructor (id: string, name: string)
      ensures this.id == id && this.name == name
      ensures levels == [] && questions == map[]
      ensures Valid() && NoOrphans()
    {
      this.id := id;
      this.name := name;
      levels := [];
      questions := map[];
    }

    /** `addCustomLevel` once a quiz is selected. */
    method AddLevel(rawName: string, color1: string, color2: string) returns (r: Status)
      modifies this
      ensures LevelAdded(this, rawName, color1, color2, r)
      ensures old(Valid()) ==> Valid()
      ensures old(NoOrphans()) ==> NoOrphans()
    {
      var name := Trim(rawName);
      if name == [] {
        return Rejected(EmptyName);
      }
      var levelId := id + "-" + Slug(name);
      if HasLevel(levels, levelId) {
        return Rejected(DuplicateLevel);
      }
      var level := Level(levelId, name, color1, color2, NextOrder(levels));
      AppendKeepsInvariants(levels, level);
      forall k ensures HasLevel(levels + [level], k) <==> HasLevel(levels, k) || k == levelId {
        AppendHas(levels, level, k);
      }
      levels := levels + [level];
      if levelId !in questions {
        questions := questions[levelId := []];
      }
      r := Done;
    }

    /** `deleteLevel`: drop the level and its questions, then renumber the
        remaining levels in a loop. */
    method DeleteLevel(levelId: string, confirmed: bool) returns (r: Status)
      modifies this
      ensures !confirmed ==> r == Rejected(Declined) && levels == old(levels) && questions == old(questions)
      ensures confirmed ==> r == Done
      ensures confirmed ==> levels == Renumber(WithoutId(old(levels), levelId))
      ensures confirmed ==> questions == old(questions) - {levelId}
      ensures confirmed ==> OrdersMatchPositions(levels) && !HasLevel(levels, levelId)
      ensures forall k :: HasLevel(levels, k) ==> HasLevel(old(levels), k)
      ensures old(Valid()) ==> Valid()
      ensures old(NoOrphans()) ==> NoOrphans()
    {
      if !confirmed {
        return Rejected(Declined);
      }
      ghost var before := levels;
      levels := WithoutId(levels, levelId);
      questions := questions - {levelId};
      ghost var filtered := levels;
      var i := 0;
      while i < |levels|
        invariant 0 <= i <= |levels| == |filtered|
        invariant forall j :: 0 <= j < i ==> levels[j] == filtered[j].(order := j + 1)
        invariant forall j :: i <= j < |levels| ==> levels[j] == filtered[j]
        invariant questions == old(questions) - {levelId}
      {
        levels := levels[i := levels[i].(order := i + 1)];
        i := i + 1;
      }
      assert levels == Renumber(filtered);
      forall k ensures HasLevel(levels, k) <==> HasLevel(before, k) && k != levelId {
        DeleteHas(before, levelId, k);
      }
      if UniqueIds(before) {
        WithoutIdKeepsUnique(before, levelId);
        RenumberKeepsUnique(filtered);
      }
      r := Done;
    }

    /** `moveLevelUp`: swap with the previous level and fix both orders. */
    method MoveLevelUp(levelId: string)
      modifies this
      ensures levels == MovedUp(old(levels), levelId) && questions == old(questions)
      ensures old(UniqueIds(levels)) && old(IndexOf(levels, levelId)) > 0
              ==> IndexOf(levels, levelId) == old(IndexOf(levels, levelId)) - 1
      ensures old(Valid()) ==> Valid()
      ensures old(NoOrphans()) ==> NoOrphans()
    {
      ghost var before := levels;
      var index := IndexOf(levels, levelId);
      if index > 0 {
        var a, b := levels[index], levels[index - 1];
        levels := levels[index := b][index - 1 := a];
        levels := levels[index := levels[index].(order := index + 1)];
        levels := levels[index - 1 := levels[index - 1].(order := index)];
      }
      assert levels == MovedUp(before, levelId);
      MovedUpKeepsInvariants(before, levelId);
      forall k ensures HasLevel(levels, k) <==> HasLevel(before, k) {
        MovedHas(before, levelId, k);
      }
    }

    /** `moveLevelDown`: swap with the next level and fix both orders. The
        level must exist unless the list is empty (see `MovedDown`). */
    method MoveLevelDown(levelId: string)
      requires HasLevel(levels, levelId) || levels == []
      modifies this
      ensures levels == MovedDown(old(levels), levelId) && questions == old(questions)
      ensures old(UniqueIds(levels)) && 0 <= old(IndexOf(levels, levelId)) < |levels| - 1
              ==> IndexOf(levels, levelId) == old(IndexOf(levels, levelId)) + 1
      ensures old(Valid()) ==> Valid()
      ensures old(NoOrphans()) ==> NoOrphans()
    {
      ghost var before := levels;
      var index := IndexOf(levels, levelId);
      if index < |levels| - 1 {
        var a, b := levels[index], levels[index + 1];
        levels := levels[index := b][index + 1 := a];
        levels := levels[index := levels[index].(order := index + 1)];
        levels := levels[index + 1 := levels[index + 1].(order := index + 2)];
      }
      assert levels == MovedDown(before, levelId);
      MovedDownKeepsInvariants(before, levelId);
      forall k ensures HasLevel(levels, k) <==> HasLevel(before, k) {
        MovedHas(before, levelId, k);
      }
    }

    /** `addCustomQuestion` once a quiz is selected. */
    method AddQuestion(levelId: string, text: string, o1: string, o2: string, o3: string, o4: string,
                       displayKind: MediaKind, displayUrl: string,
                       afterKind: MediaKind, afterUrl: string) returns (r: Status)
      modifies this
      ensures QuestionAdded(this, levelId, text, o1, o2, o3, o4, displayKind, displayUrl, afterKind, afterUrl, r)
      ensures old(Valid()) ==> Valid()
      ensures old(NoOrphans()) && (HasLevel(levels, levelId) || levelId in old(questions)) ==> NoOrphans()
    {
      if levelId == [] {
        return Rejected(NoLevelSelected);
      }
      if !AllFilled(text, o1, o2, o3, o4) {
        return Rejected(MissingField);
      }
      var q := NewQuestion(text, o1, o2, o3, o4, displayKind, displayUrl, afterKind, afterUrl);
      if levelId !in questions {
        questions := questions[levelId := []];
      }
      questions := questions[levelId := questions[levelId] + [q]];
      r := Done;
    }

    /** `editQuestion` followed by `saveEditedQuestion`, for the question at
        `index` in the list of `levelId`. The `correct` index is kept. */
    method EditQuestion(levelId: string, index: int, text: string, o1: string, o2: string, o3: string, o4: string,
                        displayKind: MediaKind, displayUrl: string,
                        afterKind: MediaKind, afterUrl: string) returns (r: Status)
      modifies this
      ensures levels == old(levels)
      ensures !old(HasQuestion(levelId, index)) ==> r == Rejected(NotFound) && questions == old(questions)
      ensures old(HasQuestion(levelId, index)) && !AllFilled(text, o1, o2, o3, o4)
              ==> r == Rejected(MissingField) && questions == old(questions)
      ensures old(HasQuestion(levelId, index)) && AllFilled(text, o1, o2, o3, o4) ==>
                r == Done
                && questions == old(questions)[levelId := old(questions)[levelId][index := Edited(old(questions)[levelId][index],
                                   text, o1, o2, o3, o4, displayKind, displayUrl, afterKind, afterUrl)]]
      ensures questions.Keys == old(questions).Keys
      ensures forall k :: k in questions && k != levelId ==> questions[k] == old(questions)[k]
      ensures levelId in questions ==> |questions[levelId]| == |old(questions)[levelId]|
      ensures levelId in questions ==>
                forall j :: 0 <= j < |questions[levelId]| && j != index ==> questions[levelId][j] == old(questions)[levelId][j]
      ensures old(NoOrphans()) ==> NoOrphans()
    {
      if !HasQuestion(levelId, index) {
        return Rejected(NotFound);
      }
      if !AllFilled(text, o1, o2, o3, o4) {
        return Rejected(MissingField);
      }
      var list := questions[levelId];
      var q := Edited(list[index], text, o1, o2, o3, o4, displayKind, displayUrl, afterKind, afterUrl);
      questions := questions[levelId := list[index := q]];
      r := Done;
    }

    /** `deleteQuestion`: after confirmation, `splice(index, 1)` on the list
        of `levelId`. */
    method DeleteQuestion(levelId: string, index: int, confirmed: bool) returns (r: Status)
      modifies this
      ensures levels == old(levels)
      ensures !confirmed ==> r == Rejected(Declined) && questions == old(questions)
      ensures confirmed && !old(HasQuestion(levelId, index)) ==> r == Rejected(NotFound) && questions == old(questions)
      ensures confirmed && old(HasQuestion(levelId, index)) ==>
                r == Done && questions == old(questions)[levelId := RemoveAt(old(questions)[levelId], index)]
      ensures questions.Keys == old(questions).Keys
      ensures forall k :: k in questions && k != levelId ==> questions[k] == old(questions)[k]
      ensures old(NoOrphans()) ==> NoOrphans()
    {
      if !confirmed {
        return Rejected(Declined);
      }
      if !HasQuestion(levelId, index) {
        return Rejected(NotFound);
      }
      questions := questions[levelId := RemoveAt(questions[levelId], index)];
      r := Done;
    }

    /** `resetQuestions`: after confirmation every level loses its
        questions; the levels stay. */
    method ResetQuestions(confirmed: bool) returns (r: Status)
      modifies this
      ensures levels == old(levels)
      ensures !confirmed ==> r == Rejected(Declined) && questions == old(questions)
      ensures confirmed ==> r == Done && questions == map[]
      ensures old(Valid()) ==> Valid()
      ensures NoOrphans() || !confirmed
    {
      if !confirmed {
        return Rejected(Declined);
      }
      questions := map[];
      r := Done;
    }
  }

  /** What `addCustomLevel` does to a quiz: an empty name (after trimming)
      or an id already present changes nothing; otherwise the level is
      appended with the next order and, if its id had no question list
      yet, an empty one is created. */
  twostate predicate LevelAdded(q: Quiz, rawName: string, color1: string, color2: string, r: Status)
    reads q
  {
    var name := Trim(rawName);
    var levelId := LevelId(q.id, rawName);
    if name == [] then
      r == Rejected(EmptyName) && q.levels == old(q.levels) && q.questions == old(q.questions)
    else if HasLevel(old(q.levels), levelId) then
      r == Rejected(DuplicateLevel) && q.levels == old(q.levels) && q.questions == old(q.questions)
    else
      r == Done
      && q.levels == old(q.levels) + [Level(levelId, name, color1, color2, NextOrder(old(q.levels)))]
      && q.questions == (if levelId in old(q.questions) then old(q.questions) else old(q.questions)[levelId := []])
  }

  /** What `addCustomQuestion` does to a quiz: with no level selected or a
      field left empty nothing changes; otherwise the new question is
      appended to the level's list, which is created if missing, and no
      other list changes. */
  twostate predicate QuestionAdded(q: Quiz, levelId: string, text: string, o1: string, o2: string, o3: string, o4: string,
                                   displayKind: MediaKind, displayUrl: string,
                                   afterKind: MediaKind, afterUrl: string, r: Status)
    reads q
  {
    q.levels == old(q.levels)
    && if levelId == [] then
      r == Rejected(NoLevelSelected) && q.questions == old(q.questions)
    else if !AllFilled(text, o1, o2, o3, o4) then
      r == Rejected(MissingField) && q.questions == old(q.questions)
    else
      r == Done
      && q.questions == old(q.questions)[levelId := (if levelId in old(q.questions) then old(q.questions)[levelId] else [])
                                                    + [NewQuestion(text, o1, o2, o3, o4, displayKind, displayUrl, afterKind, afterUrl)]]
  }

  /** `quizData.quizzes.find(q => q.id === id)`: the first position with
      that id, or -1. */
  function FindQuiz(quizzes: seq<Quiz>, id: string): (i: int)
    ensures -1 <= i < |quizzes|
    ensures i >= 0 ==> quizzes[i].id == id && forall j :: 0 <= j < i ==> quizzes[j].id != id
    ensures i == -1 <==> forall j :: 0 <= j < |quizzes| ==> quizzes[j].id != id
  {
    if quizzes == [] then -1
    else if quizzes[0].id == id then 0
    else
      var k := FindQuiz(quizzes[1..], id);
      assert forall j :: 1 <= j < |quizzes| ==> quizzes[j] == quizzes[1..][j - 1];
      if k == -1 then -1 else k + 1
  }

  /** The admin panel: every quiz in `quizData.quizzes` and the quiz the
      panel is editing (`currentQuiz`, or `null` before one is chosen). */
  class AdminPanel {
    var quizzes: seq<Quiz>
    var current: Quiz?

    /** No two quizzes share an id, and the current quiz is one of them. */
    ghost predicate Valid()
      reads this
    {
      (forall i, j :: 0 <= i < j < |quizzes| ==> quizzes[i].id != quizzes[j].id)
      && (current != null ==> current in quizzes)
    }

    /** The empty `{quizzes: []}` a first visit starts with. */
    constructor ()
      ensures quizzes == [] && current == null && Valid()
    {
      quizzes := [];
      current := null;
    }

    /** `saveQuizName`: select the quiz whose id the trimmed name derives,
        creating and appending it when there is none. An existing quiz
        keeps its stored name. */
    method SaveQuizName(rawName: string) returns (r: Status)
      modifies this
      ensures Trim(rawName) == [] ==> r == Rejected(EmptyName) && quizzes == old(quizzes) && current == old(current)
      ensures Trim(rawName) != [] ==> r == Done && current != null && current.id == QuizId(rawName)
      ensures Trim(rawName) != [] && FindQuiz(old(quizzes), QuizId(rawName)) >= 0 ==>
                quizzes == old(quizzes) && current == quizzes[FindQuiz(quizzes, QuizId(rawName))]
      ensures Trim(rawName) != [] && FindQuiz(old(quizzes), QuizId(rawName)) == -1 ==>
                fresh(current) && quizzes == old(quizzes) + [current]
                && current.name == Trim(rawName) && current.levels == [] && current.questions == map[]
      ensures old(Valid()) ==> Valid()
    {
      var name := Trim(rawName);
      if name == [] {
        return Rejected(EmptyName);
      }
      var id := Slug(name);
      var k := FindQuiz(quizzes, id);
      if k >= 0 {
        current := quizzes[k];
      } else {
        var q := new Quiz(id, name);
        quizzes := quizzes + [q];
        current := q;
      }
      r := Done;
    }

    /** `addCustomLevel`: refused while no quiz is selected. */
    method AddCustomLevel(rawName: string, color1: string, color2: string) returns (r: Status)
      modifies current
      ensures current == null ==> r == Rejected(NoQuiz)
      ensures current != null ==> LevelAdded(current, rawName, color1, color2, r)
      ensures current != null && old(current.Valid()) ==> current.Valid()
      ensures current != null && old(current.NoOrphans()) ==> current.NoOrphans()
    {
      if current == null {
        return Rejected(NoQuiz);
      }
      r := current.AddLevel(rawName, color1, color2);
    }

    /** `resetQuestions`, whose button is always on the page: declining
        changes nothing; with no quiz selected a confirmed reset throws on
        `currentQuiz.questions` before assigning, so nothing changes either;
        otherwise it is `Quiz.ResetQuestions` on the current
        quiz. */
    method ResetQuestions(confirmed: bool) returns (r: Status)
      modifies current
      ensures !confirmed ==> r == Rejected(Declined)
      ensures confirmed && current == null ==> r == Rejected(Threw)
      ensures current != null ==> current.levels == old(current.levels)
      ensures current != null && !confirmed ==> current.questions == old(current.questions)
      ensures current != null && confirmed ==> r == Done && current.questions == map[]
      ensures current != null && old(current.Valid()) ==> current.Valid()
    {
      if !confirmed {
        return Rejected(Declined);
      }
      if current == null {
        return Rejected(Threw);
      }
      r := current.ResetQuestions(confirmed);
    }

    /** `addCustomQuestion`: refused while no quiz is selected. */
    method AddCustomQuestion(levelId: string, text: string, o1: string, o2: string, o3: string, o4: string,
                             displayKind: MediaKind, displayUrl: string,
                             afterKind: MediaKind, afterUrl: string) returns (r: Status)
      modifies current
      ensures current == null ==> r == Rejected(NoQuiz)
      ensures current != null ==>
                QuestionAdded(current, levelId, text, o1, o2, o3, o4, displayKind, displayUrl, afterKind, afterUrl, r)
      ensures current != null && old(current.Valid()) ==> current.Valid()
      ensures current != null && old(current.NoOrphans()) && HasLevel(current.levels, levelId) ==> current.NoOrphans()
    {
      if current == null {
        return Rejected(NoQuiz);
      }
      r := current.AddQuestion(levelId, text, o1, o2, o3, o4, displayKind, displayUrl, afterKind, afterUrl);
    }
  }
}
