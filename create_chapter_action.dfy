/**
 * The repository action that adds a chapter folder to an ISBN folder,
 * first moving up the chapters at and after the requested position.
 */
module CreateChapterAction {
  import opened ChapterModel
  import opened Repository

  /** How a run of the action ends. */
  datatype Outcome =
    | Created(ref: NodeRef)
    /** The ISBN folder node does not exist: only logged, nothing raised. */
    | BookNodeMissing
    /** The chapter number parameter is not a number. */
    | NotANumber
    /** The ISBN folder's name is null. */
    | BookNameNull
    /** The ISBN folder's name is not an ISBN. */
    | NotAnIsbn

  /**
   * Runs the action on `folder` (null when the node does not exist).
   * `chapterNumber` is the parsed chapter-number parameter (None when it
   * does not parse as an integer); `newRef` is the node the store creates.
   */
  method ExecuteImpl(folder: IsbnFolder?, chapterNumber: Option<int>, title: string, author: string, newRef: NodeRef)
      returns (outcome: Outcome)
    requires folder != null ==> folder.Valid() && newRef !in folder.chapters
    modifies folder
    ensures folder == null <==> outcome == BookNodeMissing
    ensures folder != null ==> folder.Valid() && folder.name == old(folder.name)
    ensures folder != null && chapterNumber.None? ==> outcome == NotANumber
    ensures folder != null && chapterNumber.Some? && old(folder.name).None? ==> outcome == BookNameNull
    ensures folder != null && chapterNumber.Some? && old(folder.name).Some? ==>
      (outcome == NotAnIsbn <==> !folder.utils.isIsbn(old(folder.name).value))
    ensures folder != null && chapterNumber.Some? && old(folder.name).Some? ==>
      (outcome.Created? <==> folder.utils.isIsbn(old(folder.name).value))
    ensures folder != null && !outcome.Created? ==>
      folder.chapters == old(folder.chapters) && folder.chapterCount == old(folder.chapterCount)
    ensures folder != null && outcome.Created? ==>
      && chapterNumber.Some?
      && outcome.ref == newRef
      && folder.chapters == AfterInsert(old(folder.chapters),
                                        EffectivePosition(chapterNumber.value, |old(folder.chapters)|),
                                        newRef, title, author, folder.utils.chapterFolderName)
      && folder.chapterCount == old(folder.chapterCount) + 1
  {
    if folder == null {
      return BookNodeMissing;
    }
    if chapterNumber.None? {
      return NotANumber;
    }
    var newChapterNumber := chapterNumber.value;
    if newChapterNumber < 1 {
      newChapterNumber := 1;
    }
    if folder.name.None? {
      return BookNameNull;
    }
    if !folder.utils.isIsbn(folder.name.value) {
      return NotAnIsbn;
    }
    AddChapter(folder, newChapterNumber, title, author, newRef);
    outcome := Created(newRef);
  }

  /**
   * Adds a chapter at `requested` (already at least 1): moves up the
   * chapters from there on, unless the chapter goes last, creates the new
   * chapter folder, and adds one to the stored number of chapters.
   */
  method AddChapter(folder: IsbnFolder, requested: int, title: string, author: string, newRef: NodeRef)
    requires folder.Valid() && newRef !in folder.chapters && requested >= 1
    modifies folder`chapters, folder`chapterCount
    ensures folder.Valid()
    ensures folder.chapters == AfterInsert(old(folder.chapters), EffectivePosition(requested, |old(folder.chapters)|),
                                           newRef, title, author, folder.utils.chapterFolderName)
    ensures folder.chapterCount == old(folder.chapterCount) + 1
  {
    var f := folder.utils.chapterFolderName;
    ghost var before := folder.chapters;
    var chapterFolders := folder.SortedChapterFolders();
    var newChapterNumber := requested;
    if newChapterNumber > |chapterFolders| {
      // Appending: no chapter moves.
      newChapterNumber := |chapterFolders| + 1;
      AppendRenumbersNothing(before, f);
    } else {
      DenseListing(before, chapterFolders);
      DenseBounded(before);
      MoveUpFrom(folder, chapterFolders, newChapterNumber);
    }
    assert newChapterNumber == EffectivePosition(requested, |before|);

    // Create the new chapter folder with its chapter metadata.
    var chapterFolderName := f(newChapterNumber);
    ShiftUpFreesPosition(before, newChapterNumber, f);
    folder.CreateChapterFolder(newRef, Chapter(newChapterNumber, chapterFolderName, title, author, Completed));

    // One more chapter in the book.
    var currentNumberOfChapters := folder.chapterCount;
    folder.chapterCount := currentNumberOfChapters + 1;

    InsertKeepsInvariant(before, newChapterNumber, newRef, title, author, f);
  }

  /**
   * Walks the listed chapters from the last one down, moving each up by one
   * and renaming it, and stops after the one numbered `position`.
   */
  method MoveUpFrom(folder: IsbnFolder, chapterFolders: seq<Entry>, position: int)
    requires Injective(folder.utils.chapterFolderName) && NumbersDistinct(folder.chapters)
    requires NamesMatch(folder.chapters, folder.utils.chapterFolderName)
    requires ListedInOrder(folder.chapters, chapterFolders)
    requires forall r :: r in folder.chapters ==> folder.chapters[r].number <= |chapterFolders|
    requires 1 <= position <= |chapterFolders|
    modifies folder`chapters
    ensures folder.chapters == ShiftUp(old(folder.chapters), position, folder.utils.chapterFolderName)
  {
    var f := folder.utils.chapterFolderName;
    ghost var before := folder.chapters;
    NothingAbove(before, |chapterFolders|, f);
    MatchedNamesDistinct(before, f);
    var i := |chapterFolders|;
    while i > 0
      invariant position <= i <= |chapterFolders|
      invariant folder.chapters == ShiftUp(before, i + 1, f)
      invariant NumbersDistinct(folder.chapters) && NamesDistinct(folder.chapters)
    {
      i := i - 1;
      var existingChapterFolder := chapterFolders[i];
      MoveUpChapter(folder, before, existingChapterFolder);
      if existingChapterFolder.number == position {
        break;
      }
    }
  }

  /**
   * One step of the walk: the chapter listed as `existing` gets the next
   * number and the folder name for it, written name first; no two chapters
   * then share a number or a name.
   */
  method MoveUpChapter(folder: IsbnFolder, ghost before: Chapters, existing: Entry)
    requires Injective(folder.utils.chapterFolderName) && NumbersDistinct(before)
    requires NamesMatch(before, folder.utils.chapterFolderName)
    requires existing.ref in before && before[existing.ref].number == existing.number
    requires folder.chapters == ShiftUp(before, existing.number + 1, folder.utils.chapterFolderName)
    modifies folder`chapters
    ensures folder.chapters == ShiftUp(before, existing.number, folder.utils.chapterFolderName)
    ensures NumbersDistinct(folder.chapters) && NamesDistinct(folder.chapters)
  {
    var f := folder.utils.chapterFolderName;
    var updatedChapterNumber := existing.number + 1;
    var updatedChapterFolderName := f(updatedChapterNumber);
    MoveUpOne(before, existing.number, existing.ref, f);
    folder.SetChapterName(existing.ref, updatedChapterFolderName);
    folder.SetChapterNumber(existing.ref, updatedChapterNumber);
    ShiftUpNoClash(before, existing.number, f);
  }
}
