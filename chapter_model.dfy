/**
 * The numbering rules that keep the chapter folders of one ISBN folder
 * numbered densely 1..N, stated on values: a book's chapters are a map
 * from node reference to the chapter's properties, and inserting or
 * deleting a chapter is a function of that map.
 */
module ChapterModel {

  datatype Option<T> = None | Some(value: T)

  /** A content-store node reference, such as "workspace://SpacesStore/<uuid>". */
  type NodeRef = string

  /** The chapter metadata status kept in the chapter-info aspect. */
  datatype MetadataStatus = Completed | Missing

  /** One chapter folder: its folder name (cm:name) and its chapter-info aspect. */
  datatype Chapter = Chapter(number: int, name: string, title: string, author: string, status: MetadataStatus)

  type Chapters = map<NodeRef, Chapter>

  /**
   * The helpers of the BestPub utility service whose code is not part of
   * this model: the ISBN check and the chapter-folder naming rule.
   */
  datatype UtilsService = UtilsService(isIsbn: string -> bool, chapterFolderName: int -> string)

  /** Distinct chapter numbers give distinct folder names. */
  ghost predicate Injective(f: int -> string) {
    forall a: int, b: int :: f(a) == f(b) ==> a == b
  }

  ghost predicate NumbersDistinct(m: Chapters) {
    forall r, s :: r in m && s in m && r != s ==> m[r].number != m[s].number
  }

  ghost predicate NamesDistinct(m: Chapters) {
    forall r, s :: r in m && s in m && r != s ==> m[r].name != m[s].name
  }

  /** Every folder is named after its chapter number. */
  ghost predicate NamesMatch(m: Chapters, f: int -> string) {
    forall r :: r in m ==> m[r].name == f(m[r].number)
  }

  ghost function NumberSet(m: Chapters): set<int> {
    set r | r in m :: m[r].number
  }

  /** The chapter numbers are exactly 1..hi. */
  ghost predicate NumbersAre(m: Chapters, hi: int) {
    forall n :: n in NumberSet(m) <==> 1 <= n <= hi
  }

  /** The chapter numbers are exactly 1..N, each used once. */
  ghost predicate Dense(m: Chapters) {
    NumbersDistinct(m) && NumbersAre(m, |m|)
  }

  /** A chapter given a new number, and the folder name that goes with it. */
  function Renumbered(c: Chapter, n: int, f: int -> string): Chapter {
    c.(number := n, name := f(n))
  }

  /** Every chapter numbered p or above moves up by one. */
  function ShiftUp(m: Chapters, p: int, f: int -> string): Chapters {
    map r | r in m :: if m[r].number >= p then Renumbered(m[r], m[r].number + 1, f) else m[r]
  }

  /** Every chapter numbered above k moves down by one. */
  function ShiftDown(m: Chapters, k: int, f: int -> string): Chapters {
    map r | r in m :: if m[r].number > k then Renumbered(m[r], m[r].number - 1, f) else m[r]
  }

  /**
   * The position a new chapter actually takes in a book of `count`
   * chapters: below 1 means first, beyond the last means appended.
   */
  function EffectivePosition(requested: int, count: nat): (p: int)
    ensures 1 <= p <= count + 1
    ensures requested < 1 ==> p == 1
    ensures requested > count ==> p == count + 1
    ensures 1 <= requested <= count ==> p == requested
  {
    var atLeastOne := if requested < 1 then 1 else requested;
    if atLeastOne > count then count + 1 else atLeastOne
  }

  /** The chapter the create action adds at position p. */
  function NewChapter(p: int, title: string, author: string, f: int -> string): Chapter {
    Chapter(p, f(p), title, author, Completed)
  }

  /** The chapters after inserting a new chapter `ref` at position p. */
  function AfterInsert(m: Chapters, p: int, ref: NodeRef, title: string, author: string, f: int -> string): Chapters {
    ShiftUp(m, p, f)[ref := NewChapter(p, title, author, f)]
  }

  /** The chapters after deleting chapter `ref` and closing the gap it leaves. */
  function AfterDelete(m: Chapters, ref: NodeRef, f: int -> string): Chapters
    requires ref in m
  {
    ShiftDown(m - {ref}, m[ref].number, f)
  }

  // ---------------------------------------------------------------------
  // Shifting keeps the numbers and names consistent

  lemma ShiftUpKeepsDistinct(m: Chapters, p: int, f: int -> string)
    requires NumbersDistinct(m)
    ensures NumbersDistinct(ShiftUp(m, p, f))
    ensures ShiftUp(m, p, f).Keys == m.Keys && |ShiftUp(m, p, f)| == |m|
  {
    var s := ShiftUp(m, p, f);
    assert s.Keys == m.Keys;
    forall r, o | r in s && o in s && r != o
      ensures s[r].number != s[o].number
    {
      assert m[r].number != m[o].number;
    }
  }

  lemma ShiftUpKeepsNames(m: Chapters, p: int, f: int -> string)
    requires NamesMatch(m, f)
    ensures NamesMatch(ShiftUp(m, p, f), f)
  {
    var s := ShiftUp(m, p, f);
    forall r | r in s
      ensures s[r].name == f(s[r].number)
    {
      assert m[r].name == f(m[r].number);
    }
  }

  lemma ShiftDownKeepsDistinct(m: Chapters, k: int, f: int -> string)
    requires NumbersDistinct(m)
    requires forall r :: r in m ==> m[r].number != k
    ensures NumbersDistinct(ShiftDown(m, k, f))
    ensures ShiftDown(m, k, f).Keys == m.Keys && |ShiftDown(m, k, f)| == |m|
  {
    var s := ShiftDown(m, k, f);
    assert s.Keys == m.Keys;
    forall r, o | r in s && o in s && r != o
      ensures s[r].number != s[o].number
    {
      assert m[r].number != m[o].number;
    }
  }

  lemma ShiftDownKeepsNames(m: Chapters, k: int, f: int -> string)
    requires NamesMatch(m, f)
    ensures NamesMatch(ShiftDown(m, k, f), f)
  {
    var s := ShiftDown(m, k, f);
    forall r | r in s
      ensures s[r].name == f(s[r].number)
    {
      assert m[r].name == f(m[r].number);
    }
  }

  /** With an injective naming rule, distinct numbers give distinct names. */
  lemma MatchedNamesDistinct(m: Chapters, f: int -> string)
    requires Injective(f) && NamesMatch(m, f) && NumbersDistinct(m)
    ensures NamesDistinct(m)
  {
  }

  // ---------------------------------------------------------------------
  // Insertion

  lemma {:induction false} InsertKeepsDense(m: Chapters, p: int, ref: NodeRef, title: string, author: string, f: int -> string)
    requires Dense(m) && 1 <= p <= |m| + 1 && ref !in m
    ensures AfterInsert(m, p, ref, title, author, f).Keys == m.Keys + {ref}
    ensures |AfterInsert(m, p, ref, title, author, f)| == |m| + 1
    ensures NumbersAre(AfterInsert(m, p, ref, title, author, f), |m| + 1)
    ensures Dense(AfterInsert(m, p, ref, title, author, f))
  {
    var m' := AfterInsert(m, p, ref, title, author, f);
    ShiftUpKeepsDistinct(m, p, f);
    assert |m'| == |m| + 1;
    InsertNumbersWithin(m, p, ref, title, author, f);
    InsertNumbersCover(m, p, ref, title, author, f);
    InsertNumbersDistinct(m, p, ref, title, author, f);
  }

  lemma InsertNumbersDistinct(m: Chapters, p: int, ref: NodeRef, title: string, author: string, f: int -> string)
    requires NumbersDistinct(m) && ref !in m
    ensures NumbersDistinct(AfterInsert(m, p, ref, title, author, f))
  {
    var s := ShiftUp(m, p, f);
    var m' := AfterInsert(m, p, ref, title, author, f);
    ShiftUpKeepsDistinct(m, p, f);
    forall r, o | r in m' && o in m' && r != o
      ensures m'[r].number != m'[o].number
    {
      if r != ref && o != ref {
        assert m'[r] == s[r] && m'[o] == s[o];
      }
    }
  }


  lemma InsertNumbersWithin(m: Chapters, p: int, ref: NodeRef, title: string, author: string, f: int -> string)
    requires Dense(m) && 1 <= p <= |m| + 1 && ref !in m
    ensures forall n :: n in NumberSet(AfterInsert(m, p, ref, title, author, f)) ==> 1 <= n <= |m| + 1
  {
    var m' := AfterInsert(m, p, ref, title, author, f);
    forall n | n in NumberSet(m')
      ensures 1 <= n <= |m| + 1
    {
      var r :| r in m' && m'[r].number == n;
      if r != ref {
        assert m[r].number in NumberSet(m);
      }
    }
  }

  lemma InsertNumbersCover(m: Chapters, p: int, ref: NodeRef, title: string, author: string, f: int -> string)
    requires Dense(m) && 1 <= p <= |m| + 1 && ref !in m
    ensures forall n :: 1 <= n <= |m| + 1 ==> n in NumberSet(AfterInsert(m, p, ref, title, author, f))
  {
    var m' := AfterInsert(m, p, ref, title, author, f);
    forall n | 1 <= n <= |m| + 1
      ensures n in NumberSet(m')
    {
      if n == p {
        assert m'[ref].number == n;
      } else if n < p {
        assert n in NumberSet(m);
        var r :| r in m && m[r].number == n;
        assert m'[r].number == n;
      } else {
        assert n - 1 in NumberSet(m);
        var r :| r in m && m[r].number == n - 1;
        assert m'[r].number == n;
      }
    }
  }

  /**
   * Insertion places the new chapter at position p with the given title and
   * author and status COMPLETED, leaves the chapters before the position
   * alone, and moves the others up by exactly one without touching their
   * title, author or status.
   */
  lemma InsertRenumbersSuffix(m: Chapters, p: int, ref: NodeRef, title: string, author: string, f: int -> string)
    requires ref !in m
    ensures var m' := AfterInsert(m, p, ref, title, author, f);
      && m'[ref] == Chapter(p, f(p), title, author, Completed)
      && (forall r :: r in m && m[r].number < p ==> m'[r] == m[r])
      && (forall r :: r in m && m[r].number >= p ==>
            && m'[r].number == m[r].number + 1
            && m'[r].name == f(m[r].number + 1)
            && m'[r].title == m[r].title && m'[r].author == m[r].author && m'[r].status == m[r].status)
  {
  }

  /** Insertion keeps every folder named after its number. */
  lemma InsertKeepsNames(m: Chapters, p: int, ref: NodeRef, title: string, author: string, f: int -> string)
    requires ref !in m && NamesMatch(m, f)
    ensures NamesMatch(AfterInsert(m, p, ref, title, author, f), f)
  {
    ShiftUpKeepsNames(m, p, f);
  }

  /** Insertion keeps the order of the existing chapters. */
  lemma InsertKeepsOrder(m: Chapters, p: int, ref: NodeRef, title: string, author: string, f: int -> string)
    requires ref !in m
    ensures var m' := AfterInsert(m, p, ref, title, author, f);
      forall r, o :: r in m && o in m ==> (m[r].number < m[o].number <==> m'[r].number < m'[o].number)
  {
  }


  /** Appending to a dense book renumbers nothing. */
  lemma AppendRenumbersNothing(m: Chapters, f: int -> string)
    requires Dense(m)
    ensures ShiftUp(m, |m| + 1, f) == m
  {
    DenseBounded(m);
    NothingAbove(m, |m|, f);
  }

  /** In a dense book every chapter number lies in 1..N. */
  lemma DenseBounded(m: Chapters)
    requires Dense(m)
    ensures forall r :: r in m ==> 1 <= m[r].number <= |m|
  {
    forall r | r in m
      ensures 1 <= m[r].number <= |m|
    {
      assert m[r].number in NumberSet(m);
    }
  }

  /** Moving up from above the highest number moves nothing. */
  lemma NothingAbove(m: Chapters, hi: int, f: int -> string)
    requires forall r :: r in m ==> m[r].number <= hi
    ensures ShiftUp(m, hi + 1, f) == m
  {
  }

  /**
   * One step of the descending walk: once every chapter above t has moved,
   * moving the chapter numbered t gives the state in which every chapter
   * from t on has moved, and no other chapter holds the number t + 1.
   */
  lemma ShiftUpStep(m: Chapters, t: int, r: NodeRef, f: int -> string)
    requires NumbersDistinct(m) && r in m && m[r].number == t
    ensures forall o :: o in m && o != r ==> ShiftUp(m, t + 1, f)[o].number != t + 1
    ensures ShiftUp(m, t + 1, f)[r] == m[r]
    ensures ShiftUp(m, t + 1, f)[r := Renumbered(m[r], t + 1, f)] == ShiftUp(m, t, f)
  {
    var a := ShiftUp(m, t + 1, f)[r := Renumbered(m[r], t + 1, f)];
    var b := ShiftUp(m, t, f);
    assert a.Keys == b.Keys;
    forall o | o in a
      ensures a[o] == b[o]
    {
      if o != r {
        assert m[o].number != t;
      }
    }
  }

  /** After the walk has reached position p, no chapter holds the folder name for p. */
  lemma ShiftUpFreesPosition(m: Chapters, p: int, f: int -> string)
    requires Injective(f) && NamesMatch(m, f)
    ensures forall o :: o in ShiftUp(m, p, f) ==> ShiftUp(m, p, f)[o].name != f(p)
  {
    ShiftUpKeepsNames(m, p, f);
  }

  /** Everything the book's invariant asks of the chapters survives an insertion. */
  lemma InsertKeepsInvariant(m: Chapters, p: int, ref: NodeRef, title: string, author: string, f: int -> string)
    requires Injective(f) && Dense(m) && NamesMatch(m, f)
    requires 1 <= p <= |m| + 1 && ref !in m
    ensures var m' := AfterInsert(m, p, ref, title, author, f);
      Dense(m') && NamesMatch(m', f) && NamesDistinct(m') && |m'| == |m| + 1
  {
    var m' := AfterInsert(m, p, ref, title, author, f);
    InsertKeepsDense(m, p, ref, title, author, f);
    InsertKeepsNames(m, p, ref, title, author, f);
    MatchedNamesDistinct(m', f);
  }

  /**
   * One iteration of the descending walk, as the store sees it: once every
   * chapter above t has moved, the new name f(t + 1) is held by no other
   * chapter, and writing the chapter's name and then its number gives the
   * state in which every chapter from t on has moved.
   */
  lemma MoveUpOne(m: Chapters, t: int, r: NodeRef, f: int -> string)
    requires Injective(f) && NumbersDistinct(m) && NamesMatch(m, f)
    requires r in m && m[r].number == t
    ensures var s := ShiftUp(m, t + 1, f);
      && r in s
      && (forall o :: o in s && o != r ==> s[o].name != f(t + 1))
      && s[r := s[r].(name := f(t + 1))][r := s[r].(name := f(t + 1)).(number := t + 1)] == ShiftUp(m, t, f)
  {
    var s := ShiftUp(m, t + 1, f);
    ShiftUpStep(m, t, r, f);
    ShiftUpKeepsNames(m, t + 1, f);
    assert s[r := s[r].(name := f(t + 1))][r := s[r].(name := f(t + 1)).(number := t + 1)]
        == s[r := Renumbered(m[r], t + 1, f)];
  }

  /**
   * Every state of the walk, whatever chapter it has reached, has no two
   * chapters with the same number or the same folder name.
   */
  lemma ShiftUpNoClash(m: Chapters, t: int, f: int -> string)
    requires Injective(f) && NumbersDistinct(m) && NamesMatch(m, f)
    ensures NumbersDistinct(ShiftUp(m, t, f)) && NamesDistinct(ShiftUp(m, t, f)) && NamesMatch(ShiftUp(m, t, f), f)
  {
    ShiftUpKeepsDistinct(m, t, f);
    ShiftUpKeepsNames(m, t, f);
    MatchedNamesDistinct(ShiftUp(m, t, f), f);
  }

  // ---------------------------------------------------------------------
  // Deletion

  lemma {:induction false} DeleteKeepsDense(m: Chapters, ref: NodeRef, f: int -> string)
    requires Dense(m) && ref in m
    ensures AfterDelete(m, ref, f).Keys == m.Keys - {ref}
    ensures |AfterDelete(m, ref, f)| == |m| - 1
    ensures NumbersAre(AfterDelete(m, ref, f), |m| - 1)
    ensures Dense(AfterDelete(m, ref, f))
  {
    var rest := m - {ref};
    assert rest.Keys == m.Keys - {ref};
    assert |rest| == |m| - 1;
    ShiftDownKeepsDistinct(rest, m[ref].number, f);
    DeleteNumbersWithin(m, ref, f);
    DeleteNumbersCover(m, ref, f);
  }

  lemma DeleteNumbersWithin(m: Chapters, ref: NodeRef, f: int -> string)
    requires Dense(m) && ref in m
    ensures forall n :: n in NumberSet(AfterDelete(m, ref, f)) ==> 1 <= n <= |m| - 1
  {
    var k := m[ref].number;
    var m' := AfterDelete(m, ref, f);
    assert k in NumberSet(m);
    forall n | n in NumberSet(m')
      ensures 1 <= n <= |m| - 1
    {
      var r :| r in m' && m'[r].number == n;
      assert m[r].number in NumberSet(m);
    }
  }

  lemma DeleteNumbersCover(m: Chapters, ref: NodeRef, f: int -> string)
    requires Dense(m) && ref in m
    ensures forall n :: 1 <= n <= |m| - 1 ==> n in NumberSet(AfterDelete(m, ref, f))
  {
    var k := m[ref].number;
    var m' := AfterDelete(m, ref, f);
    assert k in NumberSet(m);
    forall n | 1 <= n <= |m| - 1
      ensures n in NumberSet(m')
    {
      if n < k {
        assert n in NumberSet(m);
        var r :| r in m && m[r].number == n;
        assert r != ref && m'[r].number == n;
      } else {
        assert n + 1 in NumberSet(m);
        var r :| r in m && m[r].number == n + 1;
        assert r != ref && m'[r].number == n;
      }
    }
  }

  /**
   * Deletion removes the chapter, leaves the chapters before it alone, and
   * moves the later ones down by exactly one without touching their title,
   * author or status.
   */
  lemma DeleteRenumbersSuffix(m: Chapters, ref: NodeRef, f: int -> string)
    requires ref in m
    ensures var k := m[ref].number; var m' := AfterDelete(m, ref, f);
      && m'.Keys == m.Keys - {ref}
      && (forall r :: r in m && r != ref && m[r].number < k ==> m'[r] == m[r])
      && (forall r :: r in m && r != ref && m[r].number > k ==>
            && m'[r].number == m[r].number - 1
            && m'[r].name == f(m[r].number - 1)
            && m'[r].title == m[r].title && m'[r].author == m[r].author && m'[r].status == m[r].status)
  {
    assert (m - {ref}).Keys == m.Keys - {ref};
  }

  /** Deletion keeps every folder named after its number. */
  lemma DeleteKeepsNames(m: Chapters, ref: NodeRef, f: int -> string)
    requires ref in m && NamesMatch(m, f)
    ensures NamesMatch(AfterDelete(m, ref, f), f)
  {
    ShiftDownKeepsNames(m - {ref}, m[ref].number, f);
  }

  /** Deletion keeps the order of the surviving chapters. */
  lemma DeleteKeepsOrder(m: Chapters, ref: NodeRef, f: int -> string)
    requires ref in m && NumbersDistinct(m)
    ensures var m' := AfterDelete(m, ref, f);
      forall r, o :: r in m' && o in m' ==> (m[r].number < m[o].number <==> m'[r].number < m'[o].number)
  {
    var k := m[ref].number;
    var m' := AfterDelete(m, ref, f);
    forall r, o | r in m' && o in m'
      ensures m[r].number < m[o].number <==> m'[r].number < m'[o].number
    {
      assert r != ref && o != ref;
      assert m[r].number != k && m[o].number != k;
    }
  }


  /** Deleting the highest-numbered chapter of a dense book renumbers nothing. */
  lemma DeleteLastRenumbersNothing(m: Chapters, ref: NodeRef, f: int -> string)
    requires Dense(m) && ref in m && m[ref].number == |m|
    ensures AfterDelete(m, ref, f) == m - {ref}
  {
    DenseBounded(m);
  }

  /** Everything the book's invariant asks of the chapters survives a deletion. */
  lemma DeleteKeepsInvariant(m: Chapters, ref: NodeRef, f: int -> string)
    requires Injective(f) && Dense(m) && NamesMatch(m, f) && ref in m
    ensures var m' := AfterDelete(m, ref, f);
      Dense(m') && NamesMatch(m', f) && NamesDistinct(m') && |m'| == |m| - 1
  {
    DeleteKeepsDense(m, ref, f);
    DeleteKeepsNames(m, ref, f);
    MatchedNamesDistinct(AfterDelete(m, ref, f), f);
  }

  /**
   * Right after the chapter folder is removed, and before any renumbering,
   * numbers and names still match and nobody holds the removed number.
   */
  lemma RemovedLeavesGap(m: Chapters, ref: NodeRef, f: int -> string)
    requires NumbersDistinct(m) && NamesMatch(m, f) && ref in m
    ensures NumbersDistinct(m - {ref}) && NamesMatch(m - {ref}, f)
    ensures forall o :: o in m - {ref} ==> (m - {ref})[o].number != m[ref].number
  {
  }

  // ---------------------------------------------------------------------
  // The ascending walk of the delete webscript

  /**
   * The state right after the chapter numbered k is removed: distinct
   * numbers, none of them k, and folders named after their numbers by an
   * injective naming rule.
   */
  ghost predicate GapAt(m: Chapters, k: int, f: int -> string) {
    && Injective(f) && NumbersDistinct(m) && NamesMatch(m, f)
    && forall o :: o in m ==> m[o].number != k
  }

  /** The chapters in `done` numbered above k have moved down by one; the others are as in m. */
  function ShiftDownOn(m: Chapters, k: int, done: set<NodeRef>, f: int -> string): Chapters {
    map r | r in m :: if r in done && m[r].number > k then Renumbered(m[r], m[r].number - 1, f) else m[r]
  }

  /** Once the walk has visited every chapter, the gap at k is closed. */
  lemma WalkedAll(m: Chapters, k: int, f: int -> string)
    ensures ShiftDownOn(m, k, m.Keys, f) == ShiftDown(m, k, f)
  {
  }

  /** Visiting a chapter numbered k or below changes nothing. */
  lemma SkipOne(m: Chapters, k: int, done: set<NodeRef>, r: NodeRef, f: int -> string)
    requires r in m && m[r].number <= k
    ensures ShiftDownOn(m, k, done + {r}, f) == ShiftDownOn(m, k, done, f)
  {
    var a := ShiftDownOn(m, k, done + {r}, f);
    var b := ShiftDownOn(m, k, done, f);
    forall o | o in a
      ensures a[o] == b[o]
    {
    }
  }

  /**
   * One iteration of the ascending walk, as the store sees it: once every
   * chapter numbered between k and t has moved, and while no chapter holds
   * the deleted number k, the new name f(t - 1) for the chapter numbered t
   * is held by no other chapter, and writing the chapter's name and then
   * its number gives the state in which that chapter has moved too.
   */
  lemma MoveDownOne(m: Chapters, k: int, done: set<NodeRef>, r: NodeRef, f: int -> string)
    requires Injective(f) && NumbersDistinct(m) && NamesMatch(m, f)
    requires forall o :: o in m ==> m[o].number != k
    requires r in m && r !in done && m[r].number > k
    requires forall o :: o in m && k < m[o].number < m[r].number ==> o in done
    ensures var t := m[r].number; var s := ShiftDownOn(m, k, done, f);
      && r in s && s[r] == m[r]
      && (forall o :: o in s && o != r ==> s[o].name != f(t - 1))
      && s[r := s[r].(name := f(t - 1))][r := s[r].(name := f(t - 1)).(number := t - 1)]
         == ShiftDownOn(m, k, done + {r}, f)
  {
    var t := m[r].number;
    var s := ShiftDownOn(m, k, done, f);
    forall o | o in s && o != r
      ensures s[o].name != f(t - 1)
    {
      if o in done && m[o].number > k {
        assert s[o].name == f(m[o].number - 1);
        assert m[o].number != t;
      } else {
        assert s[o].name == f(m[o].number);
        assert m[o].number != t - 1;
      }
    }
    var a := s[r := s[r].(name := f(t - 1))][r := s[r].(name := f(t - 1)).(number := t - 1)];
    var b := ShiftDownOn(m, k, done + {r}, f);
    assert a.Keys == b.Keys;
    forall o | o in a
      ensures a[o] == b[o]
    {
    }
  }

  /**
   * Every state of the walk, whatever chapters it has visited, keeps every
   * folder named after its number and has no two chapters with the same
   * number or the same folder name.
   */
  lemma ShiftDownOnNoClash(m: Chapters, k: int, done: set<NodeRef>, f: int -> string)
    requires Injective(f) && NumbersDistinct(m) && NamesMatch(m, f)
    requires forall o :: o in m ==> m[o].number != k
    requires forall o, o' :: o in m && o' in m && o !in done && o' in done && m[o].number > k ==> m[o].number > m[o'].number
    ensures NumbersDistinct(ShiftDownOn(m, k, done, f))
    ensures NamesMatch(ShiftDownOn(m, k, done, f), f) && NamesDistinct(ShiftDownOn(m, k, done, f))
  {
    var s := ShiftDownOn(m, k, done, f);
    forall o, o' | o in s && o' in s && o != o'
      ensures s[o].number != s[o'].number
    {
    }
    MatchedNamesDistinct(s, f);
  }
}
