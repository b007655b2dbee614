/** Character-level helpers behind the admin panel's identifiers: the
    whitespace class of JavaScript regular expressions and of
    `String.prototype.trim`, ASCII lower-casing, and the slug rule
    `name.toLowerCase().replace(/\s+/g, '-')` that turns a quiz or level
    name into an id. */
module Text {

  /** The ECMAScript WhiteSpace and LineTerminator code points: exactly the
      characters matched by `\s` and removed by `trim()`. */
  predicate IsSpace(c: char) {
    c == ' ' || c == '\t' || c == '\n' || c == '\r'
    || c == '\U{000B}' || c == '\U{000C}' || c == '\U{00A0}' || c == '\U{1680}'
    || ('\U{2000}' <= c <= '\U{200A}')
    || c == '\U{2028}' || c == '\U{2029}' || c == '\U{202F}' || c == '\U{205F}'
    || c == '\U{3000}' || c == '\U{FEFF}'
  }

  predicate AllSpace(s: string) {
    forall i :: 0 <= i < |s| ==> IsSpace(s[i])
  }

  predicate NoSpace(s: string) {
    forall i :: 0 <= i < |s| ==> !IsSpace(s[i])
  }

  predicate IsUpper(c: char) {
    'A' <= c <= 'Z'
  }

  predicate NoUpper(s: string) {
    forall i :: 0 <= i < |s| ==> !IsUpper(s[i])
  }

  /** Whitespace fills the index range `lo..hi` of `s`. */
  predicate SpaceBetween(s: string, lo: nat, hi: nat)
    requires lo <= hi <= |s|
  {
    forall i :: lo <= i < hi ==> IsSpace(s[i])
  }

  /** The first index at or after `i` that does not hold whitespace. */
  function SkipSpaces(s: string, i: nat): (k: nat)
    requires i <= |s|
    ensures i <= k <= |s| && SpaceBetween(s, i, k)
    ensures k < |s| ==> !IsSpace(s[k])
    decreases |s| - i
  {
    if i == |s| || !IsSpace(s[i]) then i else SkipSpaces(s, i + 1)
  }

  /** The last index at or before `j` that does not follow whitespace. */
  function SkipSpacesBack(s: string, j: nat): (m: nat)
    requires j <= |s|
    ensures m <= j && SpaceBetween(s, m, j)
    ensures m > 0 ==> !IsSpace(s[m - 1])
  {
    if j == 0 || !IsSpace(s[j - 1]) then j else SkipSpacesBack(s, j - 1)
  }

  /** `String.prototype.trim`: the slice of `s` that starts and ends on a
      character that is not whitespace, what is cut off on either side
      being whitespace. */
  function Trim(s: string): (r: string)
    ensures exists k, m :: 0 <= k <= m <= |s| && r == s[k..m]
                           && SpaceBetween(s, 0, k) && SpaceBetween(s, m, |s|)
    ensures r == [] || (!IsSpace(r[0]) && !IsSpace(r[|r| - 1]))
    ensures r == [] <==> AllSpace(s)
  {
    var k := SkipSpaces(s, 0);
    if k == |s| then
      assert s[0..0] == [];
      []
    else
      var m := SkipSpacesBack(s, |s|);
      assert !IsSpace(s[k]);
      s[k..m]
  }

  /** Trimming an already-trimmed string changes nothing. */
  lemma TrimIdempotent(s: string)
    ensures Trim(Trim(s)) == Trim(s)
  {
    var t := Trim(s);
    if t != [] {
      assert SkipSpaces(t, 0) == 0;
      assert SkipSpacesBack(t, |t|) == |t|;
      assert t[0..|t|] == t;
    }
  }

  /** ASCII lower-casing of one character (other characters are kept). */
  function LowerChar(c: char): (d: char)
    ensures !IsUpper(d)
    ensures IsUpper(c) ==> d as int == c as int + 32
    ensures IsSpace(d) <==> IsSpace(c)
    ensures !IsUpper(c) ==> d == c
  {
    if IsUpper(c) then (c as int + 32) as char else c
  }

  /** `toLowerCase`, restricted to the ASCII letters. */
  function Lower(s: string): (r: string)
    ensures |r| == |s|
    ensures NoUpper(r)
    ensures forall i :: 0 <= i < |s| ==> (IsSpace(r[i]) <==> IsSpace(s[i]))
    ensures forall i :: 0 <= i < |s| && IsUpper(s[i]) ==> r[i] as int == s[i] as int + 32
    ensures forall i :: 0 <= i < |s| && !IsUpper(s[i]) ==> r[i] == s[i]
    ensures NoUpper(s) ==> r == s
  {
    seq(|s|, i requires 0 <= i < |s| => LowerChar(s[i]))
  }

  lemma LowerAppend(a: string, b: string)
    ensures Lower(a + b) == Lower(a) + Lower(b)
  {
  }

  /** `replace(/\s+/g, '-')`: every maximal run of whitespace becomes one
      hyphen; every other character is kept. */
  function CollapseSpaces(s: string): (r: string)
    ensures NoSpace(r)
  {
    CollapseFrom(s, false)
  }

  /** What the scan emits for one character `c`; `inRun` says whether the
      character before it was whitespace, which has already produced its
      hyphen. */
  function Emit(c: char, inRun: bool): (r: string)
    ensures NoSpace(r)
  {
    if IsSpace(c) then (if inRun then [] else "-") else [c]
  }

  /** The left-to-right scan behind `CollapseSpaces`. */
  function CollapseFrom(s: string, inRun: bool): (r: string)
    ensures NoSpace(r)
  {
    if s == [] then [] else Emit(s[0], inRun) + CollapseFrom(s[1..], IsSpace(s[0]))
  }

  predicate EndsInSpace(s: string) {
    s != [] && IsSpace(s[|s| - 1])
  }

  lemma CollapseFromCons(c: char, s: string, inRun: bool)
    ensures CollapseFrom([c] + s, inRun) == Emit(c, inRun) + CollapseFrom(s, IsSpace(c))
  {
    assert ([c] + s)[0] == c && ([c] + s)[1..] == s;
  }

  /** The scan of a concatenation continues the scan of its first part. */
  lemma {:induction false} CollapseFromAppend(a: string, b: string, inRun: bool)
    requires a != []
    ensures CollapseFrom(a + b, inRun) == CollapseFrom(a, inRun) + CollapseFrom(b, IsSpace(a[|a| - 1]))
    decreases |a|
  {
    var c, tail := a[0], a[1..];
    assert a == [c] + tail;
    assert a + b == [c] + (tail + b);
    CollapseFromCons(c, tail + b, inRun);
    CollapseFromCons(c, tail, inRun);
    if tail == [] {
      assert tail + b == b;
      assert CollapseFrom(tail, IsSpace(c)) == [];
    } else {
      CollapseFromAppend(tail, b, IsSpace(c));
      assert tail[|tail| - 1] == a[|a| - 1];
      AppendAssoc(Emit(c, inRun), CollapseFrom(tail, IsSpace(c)), CollapseFrom(b, IsSpace(a[|a| - 1])));
    }
  }

  lemma AppendAssoc(x: string, y: string, z: string)
    ensures x + (y + z) == (x + y) + z
  {
  }

  /** A scan starting on a character that is not whitespace does not depend
      on what came before. */
  lemma CollapseFromPlain(s: string)
    requires s != [] && !IsSpace(s[0])
    ensures CollapseFrom(s, true) == CollapseFrom(s, false)
  {
  }

  /** A string without whitespace passes through unchanged. */
  lemma {:induction false} CollapseNoSpace(s: string)
    requires NoSpace(s)
    ensures CollapseSpaces(s) == s
  {
    if s != [] {
      CollapseNoSpace(s[1..]);
    }
  }

  /** A non-empty run of whitespace becomes a single hyphen. */
  lemma CollapseRun(w: string)
    requires w != [] && AllSpace(w)
    ensures CollapseSpaces(w) == "-"
  {
    CollapseRunTail(w[1..]);
  }

  lemma {:induction false} CollapseRunTail(w: string)
    requires AllSpace(w)
    ensures CollapseFrom(w, true) == []
  {
    if w != [] {
      CollapseRunTail(w[1..]);
    }
  }

  /** Collapsing distributes over a concatenation that does not cut a run of
      whitespace in two. */
  lemma CollapseAppend(a: string, b: string)
    requires !(EndsInSpace(a) && b != [] && IsSpace(b[0]))
    ensures CollapseSpaces(a + b) == CollapseSpaces(a) + CollapseSpaces(b)
  {
    if a == [] {
      assert a + b == b;
    } else {
      CollapseFromAppend(a, b, false);
    }
    if a != [] && EndsInSpace(a) && b != [] {
      CollapseFromPlain(b);
    }
  }

  /** The slug rule applied to an already trimmed name. */
  function Slug(name: string): (r: string)
    ensures NoSpace(r) && NoUpper(r)
    ensures name != [] ==> r != []
  {
    var l := Lower(name);
    var r := CollapseSpaces(l);
    NoUpperCollapse(l, false);
    r
  }

  lemma {:induction false} NoUpperCollapse(s: string, inRun: bool)
    requires NoUpper(s)
    ensures NoUpper(CollapseFrom(s, inRun))
  {
    if s != [] {
      NoUpperCollapse(s[1..], IsSpace(s[0]));
    }
  }

  /** A slug is a fixed point of the slug rule. */
  lemma SlugIdempotent(name: string)
    ensures Slug(Slug(name)) == Slug(name)
  {
    var s := Slug(name);
    assert Lower(s) == s;
    CollapseNoSpace(s);
  }

  /** Words separated by a run of whitespace get their slugs joined by one
      hyphen. */
  lemma SlugJoin(a: string, w: string, b: string)
    requires a != [] && !IsSpace(a[|a| - 1])
    requires w != [] && AllSpace(w)
    requires b != [] && !IsSpace(b[0])
    ensures Slug(a + w + b) == Slug(a) + "-" + Slug(b)
  {
    LowerAppend(a + w, b);
    LowerAppend(a, w);
    var la, lw, lb := Lower(a), Lower(w), Lower(b);
    assert !IsSpace(la[|la| - 1]) && !IsSpace(lb[0]);
    assert AllSpace(lw);
    CollapseAppend(la, lw);
    CollapseAppend(la + lw, lb);
    CollapseRun(lw);
  }

  /** The id `saveQuizName` derives from the raw text of the name field. */
  function QuizId(rawName: string): (r: string)
    ensures NoSpace(r) && NoUpper(r)
    ensures r == [] <==> AllSpace(rawName)
  {
    Slug(Trim(rawName))
  }

  /** The id `addCustomLevel` derives from the quiz id and the raw text of
      the level-name field. */
  function LevelId(quizId: string, rawName: string): (r: string)
    ensures |r| > |quizId| && r[..|quizId|] == quizId && r[|quizId|] == '-'
    ensures NoSpace(r[|quizId| + 1..])
  {
    quizId + "-" + Slug(Trim(rawName))
  }

  /** A name made of one word with no capitals is its own slug. */
  lemma SlugOfPlainWord(w: string)
    requires NoSpace(w) && NoUpper(w)
    ensures Slug(w) == w
  {
    CollapseNoSpace(w);
  }

  lemma TrimOfWord(w: string)
    requires w != [] && !IsSpace(w[0]) && !IsSpace(w[|w| - 1])
    ensures Trim(w) == w
  {
    assert SkipSpaces(w, 0) == 0;
    assert SkipSpacesBack(w, |w|) == |w|;
    assert w[0..|w|] == w;
  }

  /** A worked example: the name "Animal Trivia" gets the id
      `animal-trivia`. */
  lemma AnimalTriviaId()
    ensures QuizId("Animal" + " " + "Trivia") == "animal" + "-" + "trivia"
  {
    AnimalWords();
    var name := "Animal" + " " + "Trivia";
    assert name[0] == "Animal"[0] && name[|name| - 1] == "Trivia"[5];
    TrimOfWord(name);
    SlugJoin("Animal", " ", "Trivia");
    SlugOfPlainWord("animal");
    SlugOfPlainWord("trivia");
  }

  lemma AnimalWords()
    ensures Lower("Animal") == "animal" && Lower("Trivia") == "trivia"
    ensures NoSpace("animal") && NoUpper("animal")
    ensures NoSpace("trivia") && NoUpper("trivia")
    ensures !IsSpace("Animal"[0]) && !IsSpace("Animal"[5])
    ensures !IsSpace("Trivia"[0]) && !IsSpace("Trivia"[5])
  {
    LowerAnimal();
    PlainAnimal();
  }

  lemma LowerAnimal()
    ensures Lower("Animal") == "animal" && Lower("Trivia") == "trivia"
  {
  }

  lemma PlainAnimal()
    ensures NoSpace("animal") && NoUpper("animal")
    ensures NoSpace("trivia") && NoUpper("trivia")
    ensures !IsSpace("Animal"[0]) && !IsSpace("Animal"[5])
    ensures !IsSpace("Trivia"[0]) && !IsSpace("Trivia"[5])
  {
  }
}
