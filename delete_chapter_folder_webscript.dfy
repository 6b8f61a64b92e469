/**
 * The web script that deletes one chapter folder and closes the gap it
 * leaves: every later chapter moves down by one and is renamed, and the
 * book's stored number of chapters goes down by one.
 */
module DeleteChapterFolderWebscript {
  import opened ChapterModel
  import opened Repository

  /** How a request ends. */
  datatype Outcome =
    | Deleted
    /** The nodeRef parameter is missing or blank. */
    | NodeRefMissing
    /** No chapter folder has the given node reference. */
    | NodeNotFound

  /**
   * The characters Java 8 counts as white space (Character.isWhitespace,
   * Unicode 6.2, where U+180E is still a space separator).
   */
  predicate IsWhitespace(c: char) {
    || c == ' ' || c == '\t' || c == '\n' || c == '\r'
    || c == '\U{000B}' || c == '\U{000C}'
    || '\U{001C}' <= c <= '\U{001F}'
    || c == '\U{1680}' || c == '\U{180E}'
    || '\U{2000}' <= c <= '\U{2006}' || '\U{2008}' <= c <= '\U{200A}'
    || c == '\U{2028}' || c == '\U{2029}' || c == '\U{205F}' || c == '\U{3000}'
  }

  /** Absent, empty, or white space only (StringUtils.isBlank). */
  predicate IsBlank(param: Option<string>) {
    param.None? || forall i :: 0 <= i < |param.value| ==> IsWhitespace(param.value[i])
  }

  /** A string is blank exactly when both of its parts are. */
  lemma BlankConcat(s: string, t: string)
    ensures IsBlank(Some(s + t)) <==> IsBlank(Some(s)) && IsBlank(Some(t))
  {
    if IsBlank(Some(s + t)) {
      forall i | 0 <= i < |s|
        ensures IsWhitespace(s[i])
      {
        assert (s + t)[i] == s[i];
      }
      forall i | 0 <= i < |t|
        ensures IsWhitespace(t[i])
      {
        assert (s + t)[|s| + i] == t[i];
      }
    }
  }

  /** The cases StringUtils.isBlank documents: null, "" and "   " are blank; "bob" and "  bob  " are not. */
  lemma BlankCases()
    ensures IsBlank(None) && IsBlank(Some("")) && IsBlank(Some("   "))
    ensures !IsBlank(Some("bob")) && !IsBlank(Some("  bob  "))
  {
    assert !IsWhitespace("bob"[0]);
    assert !IsWhitespace("  bob  "[2]);
  }

  /**
   * Handles a delete request for the chapter folder named by `paramNodeRef`
   * in the ISBN folder `folder`.
   */
  method Execute(folder: IsbnFolder, paramNodeRef: Option<string>) returns (outcome: Outcome)
    requires folder.Valid()
    modifies folder`chapters, folder`chapterCount
    ensures folder.Valid()
    ensures outcome == NodeRefMissing <==> IsBlank(paramNodeRef)
    ensures outcome == NodeNotFound <==> !IsBlank(paramNodeRef) && paramNodeRef.value !in old(folder.chapters)
    ensures !outcome.Deleted? ==>
      folder.chapters == old(folder.chapters) && folder.chapterCount == old(folder.chapterCount)
    ensures outcome.Deleted? ==>
      && paramNodeRef.Some? && paramNodeRef.value in old(folder.chapters)
      && folder.chapters == AfterDelete(old(folder.chapters), paramNodeRef.value, folder.utils.chapterFolderName)
      && folder.chapterCount == old(folder.chapterCount) - 1
  {
    if IsBlank(paramNodeRef) {
      return NodeRefMissing;
    }
    var chapterFolder2DeleteNodeRef := paramNodeRef.value;
    if chapterFolder2DeleteNodeRef !in folder.chapters {
      return NodeNotFound;
    }
    DeleteChapter(folder, chapterFolder2DeleteNodeRef);
    outcome := Deleted;
  }

  /**
   * Deletes chapter `ref`, moves every later chapter down by one, and takes
   * one off the stored number of chapters.
   */
  method DeleteChapter(folder: IsbnFolder, ref: NodeRef)
    requires folder.Valid() && ref in folder.chapters
    modifies folder`chapters, folder`chapterCount
    ensures folder.Valid()
    ensures folder.chapters == AfterDelete(old(folder.chapters), ref, folder.utils.chapterFolderName)
    ensures folder.chapterCount == old(folder.chapterCount) - 1
  {
    var f := folder.utils.chapterFolderName;
    ghost var before := folder.chapters;
    var deletedFolderChapterNumber := folder.chapters[ref].number;

    // Delete the chapter folder before adjusting the others.
    folder.DeleteNode(ref);
    RemovedLeavesGap(before, ref, f);

    var chapterFolders := folder.SortedChapterFolders();
    MoveDownAfter(folder, chapterFolders, deletedFolderChapterNumber);

    // One chapter fewer in the book.
    var currentNumberOfChapters := folder.chapterCount;
    folder.chapterCount := currentNumberOfChapters - 1;

    DeleteKeepsInvariant(before, ref, f);
  }

  /**
   * Walks the listed chapters from the first one up, and moves down by one,
   * renaming it, every chapter numbered above `deleted`.
   */
  method MoveDownAfter(folder: IsbnFolder, chapterFolders: seq<Entry>, deleted: int)
    requires GapAt(folder.chapters, deleted, folder.utils.chapterFolderName)
    requires IsListing(folder.chapters, chapterFolders)
    modifies folder`chapters
    ensures folder.chapters == ShiftDown(old(folder.chapters), deleted, folder.utils.chapterFolderName)
  {
    var f := folder.utils.chapterFolderName;
    ghost var before := folder.chapters;
    WalkStart(before, deleted, chapterFolders, f);
    for i := 0 to |chapterFolders|
      invariant folder.chapters == ShiftDownOn(before, deleted, Refs(chapterFolders[..i]), f)
      invariant NumbersDistinct(folder.chapters) && NamesDistinct(folder.chapters)
    {
      VisitChapter(folder, before, deleted, chapterFolders, i);
    }
    WalkEnd(before, deleted, chapterFolders, f);
  }

  /**
   * Before the first iteration the walk has visited nothing, so it is in
   * the state right after the delete, where no two folders clash.
   */
  lemma WalkStart(m: Chapters, deleted: int, s: seq<Entry>, f: int -> string)
    requires Injective(f) && NumbersDistinct(m) && NamesMatch(m, f)
    ensures ShiftDownOn(m, deleted, Refs(s[..0]), f) == m
    ensures NumbersDistinct(m) && NamesDistinct(m)
  {
    assert s[..0] == [];
    MatchedNamesDistinct(m, f);
  }

  /** After the last iteration the walk has visited every chapter, so the gap is closed. */
  lemma WalkEnd(m: Chapters, deleted: int, s: seq<Entry>, f: int -> string)
    requires IsListing(m, s)
    ensures ShiftDownOn(m, deleted, Refs(s[..|s|]), f) == ShiftDown(m, deleted, f)
  {
    ListingAll(m, s);
    WalkedAll(m, deleted, f);
  }

  /**
   * One iteration of the walk over entry i of the listing: a chapter
   * numbered above `deleted` moves down, any other is left alone.
   */
  method VisitChapter(folder: IsbnFolder, ghost before: Chapters, deleted: int, chapterFolders: seq<Entry>, i: int)
    requires GapAt(before, deleted, folder.utils.chapterFolderName)
    requires IsListing(before, chapterFolders) && 0 <= i < |chapterFolders|
    requires folder.chapters == ShiftDownOn(before, deleted, Refs(chapterFolders[..i]), folder.utils.chapterFolderName)
    modifies folder`chapters
    ensures folder.chapters == ShiftDownOn(before, deleted, Refs(chapterFolders[..i + 1]), folder.utils.chapterFolderName)
    ensures NumbersDistinct(folder.chapters) && NamesDistinct(folder.chapters)
  {
    var f := folder.utils.chapterFolderName;
    var existingChapterFolder := chapterFolders[i];
    ghost var done := Refs(chapterFolders[..i]);
    ListingVisited(before, chapterFolders, i);
    // The listed node exists: only the deleted one could be missing, and it is not listed.
    assert existingChapterFolder.ref in before;
    if existingChapterFolder.ref in folder.chapters {
      if existingChapterFolder.number > deleted {
        MoveDownChapter(folder, before, deleted, done, existingChapterFolder);
      } else {
        SkipOne(before, deleted, done, existingChapterFolder.ref, f);
      }
    }
    WalkNoClash(before, deleted, chapterFolders, i + 1, f);
  }

  /**
   * Every state the walk passes through, after any number of visited
   * chapters, has no two chapter folders with the same number or name.
   */
  lemma WalkNoClash(m: Chapters, deleted: int, s: seq<Entry>, i: int, f: int -> string)
    requires GapAt(m, deleted, f)
    requires IsListing(m, s) && 0 <= i <= |s|
    ensures NumbersDistinct(ShiftDownOn(m, deleted, Refs(s[..i]), f))
    ensures NamesDistinct(ShiftDownOn(m, deleted, Refs(s[..i]), f))
  {
    ListingPrefixLower(m, s, i);
    ShiftDownOnNoClash(m, deleted, Refs(s[..i]), f);
  }

  /**
   * One step of the walk: the chapter listed as `existing` gets the number
   * below its own and the folder name for it, written name first.
   */
  method MoveDownChapter(folder: IsbnFolder, ghost before: Chapters, deleted: int, ghost done: set<NodeRef>, existing: Entry)
    requires GapAt(before, deleted, folder.utils.chapterFolderName)
    requires existing.ref in before && before[existing.ref].number == existing.number
    requires existing.ref !in done && existing.number > deleted
    requires forall o :: o in before && deleted < before[o].number < existing.number ==> o in done
    requires folder.chapters == ShiftDownOn(before, deleted, done, folder.utils.chapterFolderName)
    modifies folder`chapters
    ensures folder.chapters == ShiftDownOn(before, deleted, done + {existing.ref}, folder.utils.chapterFolderName)
  {
    var f := folder.utils.chapterFolderName;
    var updatedChapterNumber := existing.number - 1;
    var updatedChapterFolderName := f(updatedChapterNumber);
    MoveDownOne(before, deleted, done, existing.ref, f);
    folder.SetChapterName(existing.ref, updatedChapterFolderName);
    folder.SetChapterNumber(existing.ref, updatedChapterNumber);
  }
}
