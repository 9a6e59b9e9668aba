/**
 * Two concrete runs of `main`, worked out from the lemmas: a presentation with one
 * annotated image, and one whose only image carries two annotations.
 */
module Scenarios {
  import opened Wrappers
  import opened Annotation
  import opened GoogleApi
  import opened Slidder
  import opened Properties

  const Deck: string := "deck"
  const Here: string := "./"

  /** The first slide holds one image annotated `path=a.png`; the second slide has no elements. */
  function OneImageDeck(): seq<Slide> {
    [Slide(Some("s1"), Some([AnnotatedImage])), Slide(Some("s2"), None)]
  }

  const AnnotatedImage: PageElement := PageElement(Some("img1"), Some("path=a.png"), true)

  /** `path=a.png` is the one annotation of the image, and names `./a.png`. */
  lemma OneImageTarget()
    ensures Target(Examine(AnnotatedImage), Here, {"./a.png"}) == Some("./a.png")
  {
    var s := "" + Annotated("a", 0) + "";
    assert s == "path=a.png";
    forall q: nat | MarkerAt(s, q)
      ensures q == 0
    {
      assert s[q] == 'p' && s[q + 1] == 'a';
    }
    assert Join(Here, "a" + "." + Extensions[0]) == "./a.png";
    AnnotatedImageIsTarget(AnnotatedImage, "", "a", 0, "", Here, {"./a.png"});
  }

  /** The annotated image, as the first element of the walk, is uploaded and replaced. */
  lemma OneImageStep(start: FileId)
    ensures Step(Examine(AnnotatedImage), Here, {"./a.png"}, Initial(start))
      == BuildState([ReplaceImage(Some("img1"), CenterCrop, WebContentLink(start))],
                    [Entry("./a.png", start, WebContentLink(start))], start + 1)
  {
    OneImageTarget();
    assert Lookup([], "./a.png") == None;
  }

  /** The walk over the deck makes one request and one upload. */
  lemma OneImageFinal(start: FileId)
    ensures Final(OneImageDeck(), Here, {"./a.png"}, start)
      == BuildState([ReplaceImage(Some("img1"), CenterCrop, WebContentLink(start))],
                    [Entry("./a.png", start, WebContentLink(start))], start + 1)
  {
    var c := Examine(AnnotatedImage);
    assert Images(OneImageDeck()) == [AnnotatedImage];
    assert Candidates([AnnotatedImage]) == [c];
    BuildCons([c], Here, {"./a.png"}, Initial(start));
    assert [c][1..] == [];
    OneImageStep(start);
  }

  /** The calls sent after a walk that ends with one request and one upload. */
  lemma OneUploadLog(start: FileId)
    ensures RunLog(Deck, BuildState([ReplaceImage(Some("img1"), CenterCrop, WebContentLink(start))],
                                    [Entry("./a.png", start, WebContentLink(start))], start + 1))
      == [CreateFile("./a.png", "./a.png", start), GetFile(start),
          CreatePermission(start, AnyoneReader),
          Call.BatchUpdate(Deck, [ReplaceImage(Some("img1"), CenterCrop, WebContentLink(start))]),
          DeleteFile(start)]
  {
    var entries := [Entry("./a.png", start, WebContentLink(start))];
    assert entries[..0] == [];
    assert UploadLog(entries) == [CreateFile("./a.png", "./a.png", start), GetFile(start)];
    assert DriveFileIds(entries) == [start];
    assert [start][..0] == [];
  }

  /**
   * With `./a.png` on disk the run uploads it, makes it public, commits one request
   * that replaces `img1` with its link, and deletes it again.
   */
  lemma OneImageRun(start: FileId)
    ensures RunLog(Deck, Final(OneImageDeck(), Here, {"./a.png"}, start))
      == [CreateFile("./a.png", "./a.png", start), GetFile(start),
          CreatePermission(start, AnyoneReader),
          Call.BatchUpdate(Deck, [ReplaceImage(Some("img1"), CenterCrop, WebContentLink(start))]),
          DeleteFile(start)]
  {
    OneImageFinal(start);
    OneUploadLog(start);
  }

  const Ambiguous: string := "path=a.png path=b.gif"
  const AmbiguousImage: PageElement := PageElement(Some("img1"), Some(Ambiguous), true)

  /** An image whose description annotates two files. */
  function TwoPathDeck(): seq<Slide> {
    [Slide(Some("s1"), Some([AmbiguousImage]))]
  }

  /** The description holds `path=` at positions 0 and 11 only. */
  lemma AmbiguousMarkers()
    ensures forall q :: MarkerAt(Ambiguous, q) ==> q == 0 || q == 11
  {
    forall q: nat | MarkerAt(Ambiguous, q)
      ensures q == 0 || q == 11
    {
      assert Ambiguous[q..q + 5][0] == 'p' && Ambiguous[q..q + 5][1] == 'a' && Ambiguous[q..q + 5][2] == 't';
    }
  }

  /** The ambiguous image has no target, whichever files exist. */
  lemma AmbiguousImageSkipped(existing: set<string>)
    ensures Target(Examine(AmbiguousImage), Here, existing).None?
  {
    assert Ambiguous[0..|Annotated("a", 0)|] == Annotated("a", 0);
    assert Ambiguous[11..11 + |Annotated("b", 3)|] == Annotated("b", 3);
    AmbiguousMarkers();
    TwoAnnotationsAreSkipped(AmbiguousImage, 0, "a", 0, 11, "b", 3, Here, existing);
  }

  /** Even with both files on disk the ambiguous image is skipped and nothing is sent. */
  lemma TwoPathRun(start: FileId)
    ensures RunLog(Deck, Final(TwoPathDeck(), Here, {"./a.png", "./b.gif"}, start)) == []
  {
    var existing := {"./a.png", "./b.gif"};
    AmbiguousImageSkipped(existing);
    assert Images(TwoPathDeck()) == [AmbiguousImage];
    assert Candidates([AmbiguousImage]) == [Examine(AmbiguousImage)];
    assert Replaced(TwoPathDeck(), Here, existing) == [];
    NothingToReplace(Deck, TwoPathDeck(), Here, existing, start);
  }
}
