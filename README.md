# Chapter sequencing in the BestPub repository extension

This project models how the BestPub Alfresco extension keeps a book's chapter
folders numbered densely 1..N. The book is an ISBN folder, and each of its
chapter folders carries a chapter-info aspect. The model covers two paths:

- **Create chapter action.** It inserts a chapter folder at a requested
  position. It walks the existing chapters from the last down, moves each one
  up by one number and renames it, and stops after the chapter at that
  position. It then creates the new folder and adds one to the book's stored
  number of chapters.
- **Delete chapter folder web script.** It deletes a chapter folder. It then
  walks the remaining chapters from the first up, moves every chapter above
  the deleted number down by one and renames it, and takes one off the stored
  number of chapters.

The model has four modules:

- `ChapterModel` (chapter_model.dfy) states the numbering rules on values.
  A book's chapters are a map from node reference to chapter. Inserting and
  deleting are the functions `AfterInsert` and `AfterDelete`. The lemmas
  prove what those functions keep: dense numbers, names that follow numbers,
  and order. They also prove the single steps the two walks take.
- `Repository` (isbn_folder.dfy) holds the class `IsbnFolder`. It has the
  folder's name, the stored number of chapters and the chapter folders, and
  the store operations the code calls: set a property, create a folder, and
  delete a node. It also has the chapter listing sorted by number.
  `Valid()` is the book invariant:
  - chapter numbers are exactly 1..N, each used once;
  - every folder is named after its number;
  - no two folders share a name;
  - the stored count equals the number of folders.

  The store's rule that sibling folders have distinct names is a
  precondition of the rename and create operations. So each walk is proved
  never to produce a clash at any step.
- `CreateChapterAction` (create_chapter_action.dfy) holds `executeImpl`.
- `DeleteChapterFolderWebscript` (delete_chapter_folder_webscript.dfy)
  holds `execute`.

Each method is proved against the value functions. The create action ends in
`AfterInsert` of the old chapters. The delete web script ends in
`AfterDelete`, and both keep `Valid()`.

The helpers of the BestPub utility service are parameters of the model:
`isISBN` and `getChapterFolderName`. Their code is not part of this model.
The folder-name rule is assumed to be injective, so that different numbers
give different names.

Three facts about the code shape the model:

- The insert never changes the book's metadata status. The new chapter's
  status is always COMPLETED.
- The delete walk runs over every remaining chapter and skips those at or
  below the deleted number.
- An exception during a walk skips the count update. In the create action
  it leaves `executeImpl`, which has no catch, before the count update. In
  the delete web script the catch-all rethrow takes it past the count
  update.

## Model

| member | source | states |
|---|---|---|
| ChapterModel.EffectivePosition | src/main/java/org/acme/bestpublishing/actions/CreateChapterAction.java:109-135 | the position taken is 1 for a request below 1, N+1 for a request above N, and the request itself otherwise; it always lies in 1..N+1 |
| ChapterModel.InsertKeepsDense | src/main/java/org/acme/bestpublishing/actions/CreateChapterAction.java:133-174 | inserting into a book numbered exactly 1..N at a position in 1..N+1 gives N+1 chapters numbered exactly 1..N+1, each used once, with the old nodes plus the new one |
| ChapterModel.InsertRenumbersSuffix | src/main/java/org/acme/bestpublishing/actions/CreateChapterAction.java:139-174 | after an insert at p: the new chapter has number p, the folder name for p, the given title and author, and status COMPLETED; chapters below p are untouched; chapters at p or above move up by exactly one, are renamed after the new number, and keep their title, author and status |
| ChapterModel.InsertKeepsNames | src/main/java/org/acme/bestpublishing/actions/CreateChapterAction.java:146-166 | if every folder was named after its number, then after an insert every folder, the new one included, still is |
| ChapterModel.InsertKeepsOrder | src/main/java/org/acme/bestpublishing/actions/CreateChapterAction.java:139-160 | two existing chapters are in the same relative order before and after an insert |
| ChapterModel.AppendRenumbersNothing | src/main/java/org/acme/bestpublishing/actions/CreateChapterAction.java:133-135 | in a dense book, inserting at N+1 moves no chapter (so appending, also to an empty book, takes no renumber step) |
| ChapterModel.MoveUpOne | src/main/java/org/acme/bestpublishing/actions/CreateChapterAction.java:143-150 | one iteration of the descending walk: once every chapter above t has moved up, no other folder holds the new name for t+1, and writing the name and then the number of chapter t gives the state where every chapter from t on has moved up |
| ChapterModel.ShiftUpNoClash | src/main/java/org/acme/bestpublishing/actions/CreateChapterAction.java:139-160 | every state of the descending walk has no two chapters with the same number or the same folder name, and every folder named after its number |
| ChapterModel.ShiftUpFreesPosition | src/main/java/org/acme/bestpublishing/actions/CreateChapterAction.java:164-166 | once the chapters from p on have moved up, no folder holds the name for p, so the new folder can be created under it |
| ChapterModel.InsertKeepsInvariant | src/main/java/org/acme/bestpublishing/actions/CreateChapterAction.java:164-189 | an insert into a dense book with matching names gives N+1 chapters, dense, named after their numbers and with distinct names |
| ChapterModel.DeleteKeepsDense | src/main/java/org/acme/bestpublishing/webscripts/DeleteChapterFolderWebscript.java:99-131 | deleting one chapter of a book numbered exactly 1..N leaves the other nodes, N-1 of them, numbered exactly 1..N-1, each used once |
| ChapterModel.DeleteRenumbersSuffix | src/main/java/org/acme/bestpublishing/webscripts/DeleteChapterFolderWebscript.java:107-131 | after a delete the node is gone; chapters below its number k are untouched; chapters above k move down by exactly one, are renamed after the new number, and keep their title, author and status |
| ChapterModel.DeleteKeepsNames | src/main/java/org/acme/bestpublishing/webscripts/DeleteChapterFolderWebscript.java:122-128 | if every folder was named after its number, then after a delete every folder still is |
| ChapterModel.DeleteKeepsOrder | src/main/java/org/acme/bestpublishing/webscripts/DeleteChapterFolderWebscript.java:113-131 | two surviving chapters are in the same relative order before and after a delete |
| ChapterModel.DeleteLastRenumbersNothing | src/main/java/org/acme/bestpublishing/webscripts/DeleteChapterFolderWebscript.java:119 | deleting the highest-numbered chapter of a dense book renumbers nothing |
| ChapterModel.DeleteKeepsInvariant | src/main/java/org/acme/bestpublishing/webscripts/DeleteChapterFolderWebscript.java:107-137 | a delete from a dense book with matching names gives N-1 chapters, dense, named after their numbers and with distinct names |
| ChapterModel.RemovedLeavesGap | src/main/java/org/acme/bestpublishing/webscripts/DeleteChapterFolderWebscript.java:99-107 | right after the node is deleted, numbers stay distinct, names still match, and no chapter holds the deleted number |
| ChapterModel.SkipOne | src/main/java/org/acme/bestpublishing/webscripts/DeleteChapterFolderWebscript.java:119 | visiting a chapter numbered at or below the deleted number changes nothing |
| ChapterModel.MoveDownOne | src/main/java/org/acme/bestpublishing/webscripts/DeleteChapterFolderWebscript.java:116-128 | one iteration of the ascending walk: once the chapters between the deleted number k and t have moved down, no other folder holds the new name for t-1, and writing the name and then the number of chapter t gives the state where it has moved down as well |
| ChapterModel.ShiftDownOnNoClash | src/main/java/org/acme/bestpublishing/webscripts/DeleteChapterFolderWebscript.java:113-131 | a state of the ascending walk in which the visited chapters above k lie below the unvisited ones keeps every folder named after its number, with no two chapters sharing a number or a folder name |
| Repository.DenseListing | src/main/java/org/acme/bestpublishing/actions/CreateChapterAction.java:129-145 | in the number-sorted listing of a dense book, entry j is chapter j+1, with the number the chapter has |
| Repository.ListingVisited | src/main/java/org/acme/bestpublishing/webscripts/DeleteChapterFolderWebscript.java:111-119 | a walk over the sorted listing that has reached entry i has not seen that chapter yet, has seen every lower-numbered chapter, and has seen one more chapter after the step |
| Repository.ListingPrefixLower | src/main/java/org/acme/bestpublishing/webscripts/DeleteChapterFolderWebscript.java:111-131 | every chapter an ascending walk has seen has a lower number than every chapter it has not |
| Repository.ListingAll | src/main/java/org/acme/bestpublishing/webscripts/DeleteChapterFolderWebscript.java:113-131 | a walk over the whole listing has seen every chapter |
| Repository.IsbnFolder.SortedChapterFolders | src/main/java/org/acme/bestpublishing/actions/CreateChapterAction.java:129-130 | returns every chapter folder exactly once, with its current number, in strictly ascending number order |
| Repository.IsbnFolder.SetChapterName | src/main/java/org/acme/bestpublishing/actions/CreateChapterAction.java:147-148 | sets one folder's name and leaves everything else alone; a name a sibling already has is refused |
| Repository.IsbnFolder.SetChapterNumber | src/main/java/org/acme/bestpublishing/actions/CreateChapterAction.java:149-150 | sets one folder's chapter number and leaves everything else alone |
| Repository.IsbnFolder.CreateChapterFolder | src/main/java/org/acme/bestpublishing/actions/CreateChapterAction.java:164-174 | adds one new folder with its chapter-info aspect under a name no sibling has |
| Repository.IsbnFolder.DeleteNode | src/main/java/org/acme/bestpublishing/webscripts/DeleteChapterFolderWebscript.java:107 | removes exactly the given folder |
| CreateChapterAction.ExecuteImpl | src/main/java/org/acme/bestpublishing/actions/CreateChapterAction.java:101-193 | a missing book node only logs, and is the only case with that outcome; a non-numeric chapter number, a null book name and a non-ISBN book name each end the action before any change; when all checks pass the chapter is always created; the chapters then become the insert at the effective position, the stored count goes up by one, and the book invariant holds |
| CreateChapterAction.AddChapter | src/main/java/org/acme/bestpublishing/actions/CreateChapterAction.java:129-189 | from a valid book, lists the chapters, moves them up unless appending, creates the new chapter and adds one to the count; the result is exactly the insert at the effective position, and the book invariant holds |
| CreateChapterAction.MoveUpFrom | src/main/java/org/acme/bestpublishing/actions/CreateChapterAction.java:139-160 | the descending walk with its break moves up exactly the chapters numbered at or above the position (its loop invariant also keeps, between iterations, no two chapters sharing a number or a name) |
| CreateChapterAction.MoveUpChapter | src/main/java/org/acme/bestpublishing/actions/CreateChapterAction.java:143-150 | one iteration: the chapter's name is set to the name for its next number, then its number is set, with no name clash; afterwards no two chapters share a number or a name |
| DeleteChapterFolderWebscript.Execute | src/main/java/org/acme/bestpublishing/webscripts/DeleteChapterFolderWebscript.java:84-146 | the parameter is checked with IsBlank (StringUtils.isBlank); a blank parameter and an unknown node each raise an error and change nothing, and these are the only error cases; otherwise the chapters become the delete of that node, the stored count goes down by one, and the book invariant holds |
| DeleteChapterFolderWebscript.DeleteChapter | src/main/java/org/acme/bestpublishing/webscripts/DeleteChapterFolderWebscript.java:99-137 | reads the number, deletes the node, lists and walks the rest, and takes one off the count; the result is exactly the delete of that node, and the book invariant holds |
| DeleteChapterFolderWebscript.BlankConcat | src/main/java/org/acme/bestpublishing/webscripts/DeleteChapterFolderWebscript.java:85 | the blank check behind the missing-parameter error is compositional: a string is blank exactly when both parts of any split of it are blank |
| DeleteChapterFolderWebscript.BlankCases | src/main/java/org/acme/bestpublishing/webscripts/DeleteChapterFolderWebscript.java:85 | the blank check gives the documented StringUtils.isBlank answers: null, "" and "   " are blank; "bob" and "  bob  " are not |
| DeleteChapterFolderWebscript.MoveDownAfter | src/main/java/org/acme/bestpublishing/webscripts/DeleteChapterFolderWebscript.java:111-131 | the ascending walk moves down by one exactly the chapters numbered above the deleted one (its loop invariant also keeps, between iterations, no two chapters sharing a number or a name) |
| DeleteChapterFolderWebscript.VisitChapter | src/main/java/org/acme/bestpublishing/webscripts/DeleteChapterFolderWebscript.java:114-130 | one iteration over a listing entry: the visited set grows by that chapter, which moves down if it is numbered above the deleted one and is left alone otherwise; afterwards no two chapters share a number or a name |
| DeleteChapterFolderWebscript.WalkStart | src/main/java/org/acme/bestpublishing/webscripts/DeleteChapterFolderWebscript.java:107-113 | before the first iteration the walk is in the state right after the delete, with no two chapters sharing a number or a name |
| DeleteChapterFolderWebscript.WalkEnd | src/main/java/org/acme/bestpublishing/webscripts/DeleteChapterFolderWebscript.java:113-131 | after the last iteration every chapter has been visited, so the walk state is exactly the gap-closing shift |
| DeleteChapterFolderWebscript.MoveDownChapter | src/main/java/org/acme/bestpublishing/webscripts/DeleteChapterFolderWebscript.java:122-128 | one iteration: the chapter's name is set to the name for the number below, then its number is set, with no name clash |
| DeleteChapterFolderWebscript.WalkNoClash | src/main/java/org/acme/bestpublishing/webscripts/DeleteChapterFolderWebscript.java:113-131 | every state the ascending walk passes through has no two chapters with the same number or the same folder name |

## Left out

- copyAspects, the copy of the book-info aspect onto the new chapter folder (src/main/java/org/acme/bestpublishing/actions/CreateChapterAction.java:181-183): its code is not part of this model.
- Logging, the JSON response, and the catch-all rethrow of the delete web script (src/main/java/org/acme/bestpublishing/webscripts/DeleteChapterFolderWebscript.java:148-151) are left out. The model's error outcomes stand for the exceptions.
- Transactions, rollback and concurrent callers are the platform's job. The model runs each operation alone.
- Store operations never fail in the model. So the partly renumbered state that an exception during a walk leaves behind, before the skipped count update, is not represented.
- isISBN and getChapterFolderName are uninterpreted. The model assumes the folder-name rule gives different numbers different names.
- String parsing of the chapter number is left out. NumberUtils.isNumber accepts strings such as "1.5" that Integer.parseInt rejects. The model receives the parsed number, or None for "not a number", and the two failures become one outcome.
- ExecuteImpl: chapter numbers are unbounded integers. Java int overflow of the number or of the count is not modelled.
- Node references are plain strings. Parsing a malformed node reference, and nodes that exist outside the book or are not chapter folders, are not modelled: the node is either a chapter of the given ISBN folder or unknown. The parent lookup of the delete web script is that ISBN folder.
- Creating the chapter folder and adding its chapter-info aspect are one store operation.
- The stored number of chapters is assumed equal to the number of chapter folders (part of Valid()). The create action itself uses the size of the listing.
- The listing's comparator, and the sorted map used to build it, are not modelled. getSortedChapterFolders is modelled by what the code relies on: the folders in ascending number order, each with the number it had when listed.
- The create action's chapter-file metadata update is an unwritten TODO in the source, so it is not modelled.
- The publish action, the publish web script and the metadata-update check are outside this model.
- Downgrading the book status to PARTIAL on insert is not modelled: the code never does it.
- ExecuteImpl: the model starts from a book in the Valid() state: numbers exactly 1..N, names following numbers, and the stored count in step. A book whose numbers are not 1..N, or whose names do not follow their numbers, is not described. On such a book the source still acts: for a book numbered {1, 3} and a request for 2, the walk never breaks, moves 3 to 4 and 1 to 2, and the create of the folder for 2 then clashes with a sibling.
- Execute: the model starts from a book in the Valid() state, as above. Deleting from a book whose numbers are not 1..N, or whose names do not follow their numbers, is not described.
- The blank check's white space follows Character.isWhitespace as of Java 8 (Unicode 6.2), which counts U+180E. Java 9 and later do not count it.
