/** The questions of one level: the record the admin panel builds from its
    form, the in-place update of `saveEditedQuestion`, and `splice(index, 1)`. */
module Questions {
  import opened Wrappers
  import opened Media

  /** A stored question. `correct` is the index of the right answer among
      `options`; the admin panel always writes the right answer first. */
  datatype Question = Question(
    text: string,
    options: seq<string>,
    correct: int,
    displayMedia: Option<Media>,
    afterMedia: Option<Media>)

  /** The form check `!questionText || !option1 || ... || !option4`: every
      field holds at least one character. */
  predicate AllFilled(text: string, o1: string, o2: string, o3: string, o4: string) {
    text != [] && o1 != [] && o2 != [] && o3 != [] && o4 != []
  }

  /** The object `addCustomQuestion` pushes: the four options in form order,
      the first one marked correct, and each media field `null` when its URL
      is empty. */
  function NewQuestion(text: string, o1: string, o2: string, o3: string, o4: string,
                       displayKind: MediaKind, displayUrl: string,
                       afterKind: MediaKind, afterUrl: string): (q: Question)
    ensures q.text == text && q.options == [o1, o2, o3, o4]
    ensures q.correct == 0 && q.options[q.correct] == o1
    ensures q.displayMedia == None <==> displayUrl == []
    ensures q.afterMedia == None <==> afterUrl == []
    ensures q.displayMedia != None ==> q.displayMedia.value == Media(displayKind, displayUrl)
    ensures q.afterMedia != None ==> q.afterMedia.value == Media(afterKind, afterUrl)
  {
    Question(text, [o1, o2, o3, o4], 0, MediaField(displayKind, displayUrl), MediaField(afterKind, afterUrl))
  }

  /** The question after `saveEditedQuestion` overwrote its text, options
      and media fields; its `correct` index is left as it was. */
  function Edited(q: Question, text: string, o1: string, o2: string, o3: string, o4: string,
                  displayKind: MediaKind, displayUrl: string,
                  afterKind: MediaKind, afterUrl: string): (e: Question)
    ensures e.correct == q.correct
    ensures e == NewQuestion(text, o1, o2, o3, o4, displayKind, displayUrl, afterKind, afterUrl).(correct := q.correct)
  {
    q.(text := text, options := [o1, o2, o3, o4],
       displayMedia := MediaField(displayKind, displayUrl),
       afterMedia := MediaField(afterKind, afterUrl))
  }

  /** Saving the same form twice has the effect of saving it once. */
  lemma EditedIdempotent(q: Question, text: string, o1: string, o2: string, o3: string, o4: string,
                         dk: MediaKind, du: string, ak: MediaKind, au: string)
    ensures Edited(Edited(q, text, o1, o2, o3, o4, dk, du, ak, au), text, o1, o2, o3, o4, dk, du, ak, au)
            == Edited(q, text, o1, o2, o3, o4, dk, du, ak, au)
  {
  }

  /** Editing a freshly added question with the form it was created from
      gives back the same question. */
  lemma EditedNewUnchanged(text: string, o1: string, o2: string, o3: string, o4: string,
                           dk: MediaKind, du: string, ak: MediaKind, au: string)
    ensures var q := NewQuestion(text, o1, o2, o3, o4, dk, du, ak, au);
            Edited(q, text, o1, o2, o3, o4, dk, du, ak, au) == q
  {
  }

  /** `list.splice(index, 1)` for an index inside the list: the element at
      `index` is dropped and the later ones move one place forward. */
  function RemoveAt(s: seq<Question>, index: nat): (r: seq<Question>)
    requires index < |s|
    ensures |r| == |s| - 1
    ensures forall j :: 0 <= j < index ==> r[j] == s[j]
    ensures forall j :: index <= j < |r| ==> r[j] == s[j + 1]
  {
    s[..index] + s[index + 1..]
  }

  /** Putting the removed question back at its place restores the list,
      and nothing but that one question went missing. */
  lemma RemoveAtInverse(s: seq<Question>, index: nat)
    requires index < |s|
    ensures RemoveAt(s, index)[..index] + [s[index]] + RemoveAt(s, index)[index..] == s
    ensures multiset(RemoveAt(s, index)) + multiset{s[index]} == multiset(s)
  {
    var r := RemoveAt(s, index);
    assert r[..index] == s[..index];
    assert r[index..] == s[index + 1..];
    assert s == s[..index] + [s[index]] + s[index + 1..];
  }
}
