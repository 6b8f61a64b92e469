/**
 * The ISBN folder of one book as the content store holds it: its name, the
 * stored number-of-chapters property, and its chapter folders keyed by node
 * reference. The store operations the chapter code calls are methods here,
 * and so is the listing of the chapter folders sorted by chapter number.
 */
module Repository {
  import opened ChapterModel

  /** One entry of the sorted chapter listing: the node and the chapter number it had when listed. */
  datatype Entry = Entry(ref: NodeRef, number: int)

  /** The nodes a listing names. */
  ghost function Refs(s: seq<Entry>): set<NodeRef> {
    set j | 0 <= j < |s| :: s[j].ref
  }

  /**
   * `s` lists every chapter of `m` exactly once, with the number it has in
   * `m`, in strictly ascending order of number.
   */
  ghost predicate IsListing(m: Chapters, s: seq<Entry>) {
    && |s| == |m|
    && (forall j :: 0 <= j < |s| ==> s[j].ref in m && s[j].number == m[s[j].ref].number)
    && m.Keys <= Refs(s)
    && (forall a, b :: 0 <= a < b < |s| ==> s[a].number < s[b].number)
  }

  /** A nonempty set of chapters has one with the lowest number. */
  lemma {:induction false} LowestExists(m: Chapters, rest: set<NodeRef>)
    requires rest != {} && rest <= m.Keys
    ensures exists r :: r in rest && forall o :: o in rest ==> m[r].number <= m[o].number
  {
    var x :| x in rest;
    if rest != {x} {
      LowestExists(m, rest - {x});
      var y :| y in rest - {x} && forall o :: o in rest - {x} ==> m[y].number <= m[o].number;
      if m[x].number < m[y].number {
        assert forall o :: o in rest ==> m[x].number <= m[o].number;
      } else {
        assert forall o :: o in rest ==> m[y].number <= m[o].number;
      }
    } else {
      assert forall o :: o in rest ==> m[x].number <= m[o].number;
    }
  }

  /** In the listing of a dense book, the chapter at index j is chapter j + 1. */
  lemma {:induction false} DenseListing(m: Chapters, s: seq<Entry>)
    requires Dense(m) && IsListing(m, s)
    ensures ListedInOrder(m, s)
  {
    forall j | 0 <= j < |s|
      ensures 1 <= s[j].number <= |m|
    {
      assert s[j].number in NumberSet(m);
    }
    AscendingFrom(s, 0, |m|);
  }

  /** Entry j of `s` is the chapter numbered j + 1 in `m`. */
  ghost predicate ListedInOrder(m: Chapters, s: seq<Entry>) {
    forall j :: 0 <= j < |s| ==> s[j].ref in m && s[j].number == j + 1 && m[s[j].ref].number == j + 1
  }

  /** Strictly ascending numbers in [lo + 1, hi] on hi - lo places are exactly lo + 1 .. hi. */
  lemma {:induction false} AscendingFrom(s: seq<Entry>, lo: int, hi: int)
    requires |s| == hi - lo
    requires forall j :: 0 <= j < |s| ==> lo < s[j].number <= hi
    requires forall a, b :: 0 <= a < b < |s| ==> s[a].number < s[b].number
    ensures forall j :: 0 <= j < |s| ==> s[j].number == lo + 1 + j
  {
    if |s| > 0 {
      var t := s[1..];
      forall j | 0 <= j < |t|
        ensures lo + 1 < t[j].number <= hi
      {
        assert s[0].number < s[j + 1].number;
      }
      AscendingFrom(t, lo + 1, hi);
      assert |s| > 1 ==> s[0].number < s[1].number;
      forall j | 0 <= j < |s|
        ensures s[j].number == lo + 1 + j
      {
        if j > 0 {
          assert s[j] == t[j - 1];
        }
      }
    }
  }

  /**
   * A walk over a listing that has reached index i has not seen the chapter
   * at i yet, has seen every chapter numbered lower, and sees one more.
   */
  lemma ListingVisited(m: Chapters, s: seq<Entry>, i: int)
    requires IsListing(m, s) && 0 <= i < |s|
    ensures s[i].ref !in Refs(s[..i])
    ensures forall o :: o in m && m[o].number < s[i].number ==> o in Refs(s[..i])
    ensures Refs(s[..i + 1]) == Refs(s[..i]) + {s[i].ref}
  {
    ListingUnseen(m, s, i);
    ListingSeenBelow(m, s, i);
    RefsStep(s, i);
  }

  lemma ListingUnseen(m: Chapters, s: seq<Entry>, i: int)
    requires IsListing(m, s) && 0 <= i < |s|
    ensures s[i].ref !in Refs(s[..i])
  {
    forall j | 0 <= j < i
      ensures s[..i][j].ref != s[i].ref
    {
      assert s[j].number < s[i].number;
    }
  }

  lemma ListingSeenBelow(m: Chapters, s: seq<Entry>, i: int)
    requires IsListing(m, s) && 0 <= i < |s|
    ensures forall o :: o in m && m[o].number < s[i].number ==> o in Refs(s[..i])
  {
    forall o | o in m && m[o].number < s[i].number
      ensures o in Refs(s[..i])
    {
      assert o in Refs(s);
      var j :| 0 <= j < |s| && s[j].ref == o;
      assert j < i;
      assert s[..i][j].ref == o;
    }
  }

  /** The nodes of a prefix grow by one node per entry. */
  lemma RefsStep(s: seq<Entry>, i: int)
    requires 0 <= i < |s|
    ensures Refs(s[..i + 1]) == Refs(s[..i]) + {s[i].ref}
  {
    var a := Refs(s[..i + 1]);
    var b := Refs(s[..i]) + {s[i].ref};
    forall o | o in a
      ensures o in b
    {
      var j :| 0 <= j < i + 1 && s[..i + 1][j].ref == o;
      if j < i {
        assert s[..i][j].ref == o;
      }
    }
    forall o | o in b
      ensures o in a
    {
      if o == s[i].ref {
        assert s[..i + 1][i].ref == o;
      } else {
        var j :| 0 <= j < i && s[..i][j].ref == o;
        assert s[..i + 1][j].ref == o;
      }
    }
  }

  /** Every chapter a walk has seen is numbered below every chapter it has not. */
  lemma ListingPrefixLower(m: Chapters, s: seq<Entry>, i: int)
    requires IsListing(m, s) && 0 <= i <= |s|
    ensures forall o, o' :: o in m && o !in Refs(s[..i]) && o' in Refs(s[..i]) ==> m[o'].number < m[o].number
  {
    forall o, o' | o in m && o !in Refs(s[..i]) && o' in Refs(s[..i])
      ensures m[o'].number < m[o].number
    {
      var j' :| 0 <= j' < i && s[..i][j'].ref == o';
      forall j | 0 <= j < i
        ensures s[j].ref != o
      {
        assert s[..i][j].ref == s[j].ref;
      }
      assert o in Refs(s);
      var j :| 0 <= j < |s| && s[j].ref == o;
      assert s[j'].number < s[j].number;
    }
  }

  /** A walk over the whole listing has seen every chapter. */
  lemma ListingAll(m: Chapters, s: seq<Entry>)
    requires IsListing(m, s)
    ensures Refs(s[..|s|]) == m.Keys
  {
    assert s[..|s|] == s;
  }

  /**
   * `s` lists, in ascending order, the chapters of `m` outside `rest`,
   * and each of them has a lower number than every chapter still in `rest`.
   */
  ghost predicate PartialListing(m: Chapters, s: seq<Entry>, rest: set<NodeRef>) {
    && rest <= m.Keys
    && |s| + |rest| == |m|
    && (forall j :: 0 <= j < |s| ==> s[j].ref in m && s[j].ref !in rest && s[j].number == m[s[j].ref].number)
    && m.Keys - rest <= Refs(s)
    && (forall a, b :: 0 <= a < b < |s| ==> s[a].number < s[b].number)
    && (forall j, r :: 0 <= j < |s| && r in rest ==> s[j].number < m[r].number)
  }

  /** Moving the lowest-numbered remaining chapter to the end of the listing keeps it a partial listing. */
  lemma ListingStep(m: Chapters, s: seq<Entry>, rest: set<NodeRef>, r: NodeRef)
    requires NumbersDistinct(m) && PartialListing(m, s, rest)
    requires r in rest && forall o :: o in rest ==> m[r].number <= m[o].number
    ensures PartialListing(m, s + [Entry(r, m[r].number)], rest - {r})
  {
    var s' := s + [Entry(r, m[r].number)];
    var rest' := rest - {r};
    assert |s'| + |rest'| == |m|;
    forall j | 0 <= j < |s'|
      ensures s'[j].ref in m && s'[j].ref !in rest' && s'[j].number == m[s'[j].ref].number
    {
      if j < |s| {
        assert s'[j] == s[j];
      }
    }
    forall o | o in m && o !in rest'
      ensures o in Refs(s')
    {
      if o == r {
        assert s'[|s|].ref == o;
      } else {
        assert o in Refs(s);
        var j :| 0 <= j < |s| && s[j].ref == o;
        assert s'[j].ref == o;
      }
    }
    forall a, b | 0 <= a < b < |s'|
      ensures s'[a].number < s'[b].number
    {
      assert s'[a] == s[a];
      if b < |s| {
        assert s'[b] == s[b];
      }
    }
    forall j, o | 0 <= j < |s'| && o in rest'
      ensures s'[j].number < m[o].number
    {
      if j == |s| {
        assert m[r].number != m[o].number;
      } else {
        assert s'[j] == s[j];
      }
    }
  }

  class IsbnFolder {
    /** The utility service the folder's chapters are named by. */
    const utils: UtilsService
    /** The folder's cm:name, which the store may hold as null. */
    var name: Option<string>
    /** The book-info property holding the number of chapters. */
    var chapterCount: int
    /** The chapter folders under the ISBN folder. */
    var chapters: Chapters

    /**
     * A book in good order: numbers exactly 1..N, every folder named after
     * its number, the stored count equal to the number of chapter folders.
     */
    ghost predicate Valid()
      reads this
    {
      && Injective(utils.chapterFolderName)
      && Dense(chapters)
      && NamesMatch(chapters, utils.chapterFolderName)
      && NamesDistinct(chapters)
      && chapterCount == |chapters|
    }

    /** An ISBN folder without chapters. */
    constructor (utils: UtilsService, name: Option<string>)
      requires Injective(utils.chapterFolderName)
      ensures Valid()
      ensures this.utils == utils && this.name == name
      ensures chapters == map[] && chapterCount == 0
    {
      this.utils := utils;
      this.name := name;
      chapterCount := 0;
      chapters := map[];
    }

    /**
     * Sets a chapter folder's cm:name. The store refuses a name that a
     * sibling folder already has.
     */
    method SetChapterName(ref: NodeRef, newName: string)
      requires ref in chapters
      requires forall o :: o in chapters && o != ref ==> chapters[o].name != newName
      modifies this`chapters
      ensures chapters == old(chapters)[ref := old(chapters)[ref].(name := newName)]
    {
      chapters := chapters[ref := chapters[ref].(name := newName)];
    }

    /** Sets a chapter folder's chapter-number property. */
    method SetChapterNumber(ref: NodeRef, newNumber: int)
      requires ref in chapters
      modifies this`chapters
      ensures chapters == old(chapters)[ref := old(chapters)[ref].(number := newNumber)]
    {
      chapters := chapters[ref := chapters[ref].(number := newNumber)];
    }

    /**
     * Creates a chapter folder with its chapter-info aspect. The store
     * refuses a name that a sibling folder already has.
     */
    method CreateChapterFolder(ref: NodeRef, chapter: Chapter)
      requires ref !in chapters
      requires forall o :: o in chapters ==> chapters[o].name != chapter.name
      modifies this`chapters
      ensures chapters == old(chapters)[ref := chapter]
    {
      chapters := chapters[ref := chapter];
    }

    /** Deletes a chapter folder. */
    method DeleteNode(ref: NodeRef)
      requires ref in chapters
      modifies this`chapters
      ensures chapters == old(chapters) - {ref}
    {
      chapters := chapters - {ref};
    }

    /**
     * The chapter folders sorted on chapter number, each with the number
     * it has now. Chapters sharing a number would be one key of the sorted
     * map, so the listing asks for distinct numbers.
     */
    method SortedChapterFolders() returns (entries: seq<Entry>)
      requires NumbersDistinct(chapters)
      ensures IsListing(chapters, entries)
    {
      var m := chapters;
      entries := [];
      var rest := m.Keys;
      while rest != {}
        invariant PartialListing(m, entries, rest)
        decreases |rest|
      {
        LowestExists(m, rest);
        var r :| r in rest && forall o :: o in rest ==> m[r].number <= m[o].number;
        ListingStep(m, entries, rest, r);
        entries := entries + [Entry(r, m[r].number)];
        rest := rest - {r};
      }
    }
  }
}
