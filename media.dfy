/** Media attached to a question, and the rule by which the admin panel
    guesses the kind of media from a typed URL: a non-empty URL ending in
    `.mp4`, `.webm` or `.ogg`, in any letter case, is a video; any other
    non-empty URL is an image. */
module Media {
  import opened Wrappers
  import opened Text

  datatype MediaKind = Image | Video

  /** A `{type, url}` record as stored in a question. */
  datatype Media = Media(kind: MediaKind, url: string)

  const VideoExtensions: seq<string> := [".mp4", ".webm", ".ogg"]

  predicate EndsWith(s: string, suffix: string) {
    |suffix| <= |s| && s[|s| - |suffix|..] == suffix
  }

  /** The regular expression `/\.(mp4|webm|ogg)$/i`. Without the `u` flag,
      `i` folds only ASCII letters, which is what `Lower` does. */
  predicate HasVideoExtension(url: string) {
    exists e :: e in VideoExtensions && EndsWith(Lower(url), e)
  }

  /** The kind the URL field's input handler selects, or `None` for an
      empty field (both previews hidden). */
  function Classify(url: string): (k: Option<MediaKind>)
    ensures k == None <==> url == []
    ensures k == Some(Video) <==> url != [] && HasVideoExtension(url)
    ensures k == Some(Image) <==> url != [] && !HasVideoExtension(url)
  {
    if url == [] then None
    else if HasVideoExtension(url) then Some(Video)
    else Some(Image)
  }

  lemma LowerIdempotent(s: string)
    ensures Lower(Lower(s)) == Lower(s)
  {
  }

  lemma LowerSuffix(s: string, k: nat)
    requires k <= |s|
    ensures Lower(s)[k..] == Lower(s[k..])
  {
  }

  /** Changing the letter case of a URL never changes its classification. */
  lemma ClassifyIgnoresCase(url: string)
    ensures Classify(Lower(url)) == Classify(url)
  {
    LowerIdempotent(url);
  }

  /** Any URL ending in one of the three extensions, written in any letter
      case, is a video. */
  lemma VideoBySuffix(base: string, ext: string)
    requires Lower(ext) in VideoExtensions
    ensures Classify(base + ext) == Some(Video)
  {
    var url := base + ext;
    assert url[|url| - |ext|..] == ext;
    LowerSuffix(url, |url| - |ext|);
    assert EndsWith(Lower(url), Lower(ext));
  }

  lemma EndsWithLastTwo(s: string, e: string)
    requires |e| >= 2
    ensures EndsWith(s, e) ==> s[|s| - 1] == e[|e| - 1] && s[|s| - 2] == e[|e| - 2]
  {
    if EndsWith(s, e) {
      var t := s[|s| - |e|..];
      assert t[|e| - 1] == s[|s| - 1] && t[|e| - 2] == s[|s| - 2];
    }
  }

  /** A URL ending in `.png` is an image. */
  lemma ImageByPngSuffix(base: string)
    ensures Classify(base + ".png") == Some(Image)
  {
    var url := base + ".png";
    var l := Lower(url);
    LowerSuffix(url, |url| - 4);
    assert url[|url| - 4..] == ".png";
    assert l[|l| - 4..] == ".png";
    assert l[|l| - 1] == 'g' && l[|l| - 2] == 'n' && l[|l| - 3] == 'p';
    forall e | e in VideoExtensions
      ensures !EndsWith(l, e)
    {
      EndsWithLastTwo(l, e);
    }
  }

  /** The media field of a new or edited question: `null` for an empty URL,
      else the kind selected at the time together with the URL. */
  function MediaField(kind: MediaKind, url: string): (m: Option<Media>)
    ensures m == None <==> url == []
    ensures m != None ==> m.value.kind == kind && m.value.url == url
  {
    if url == [] then None else Some(Media(kind, url))
  }
}
