/**
 The recent-books list of firmware/src/RecentBooksStore.cpp: a list bounded to ten
 entries that the device shows newest first.
 */
module RecentBooks {

  import opened Bytes
  import opened LengthPrefixed

  const MAX_RECENT_BOOKS := 10

  datatype Book = Book(path: Str, title: Str, author: Str, cover: Str, source: Str, progress: int, readingTime: int)

  /** The arguments of one `addBook` call. */
  datatype Opening = Opening(path: Str, title: Str, author: Str, cover: Str, source: Str)

  function Fresh(o: Opening): Book { Book(o.path, o.title, o.author, o.cover, o.source, 0, 0) }

  /** A partial replacement keeps the known metadata; progress and reading time start over. */
  function Merged(known: Book, o: Opening): Book {
    Fresh(o).(title := if o.title == [] then known.title else o.title,
              author := if o.author == [] then known.author else o.author,
              cover := if o.cover == [] then known.cover else o.cover)
  }

  /** The first entry with the path, or the length. */
  function IndexOf(list: seq<Book>, path: Str): (i: nat)
    ensures i <= |list|
    ensures i < |list| ==> list[i].path == path
    ensures forall j :: 0 <= j < i ==> list[j].path != path
  {
    if list == [] || list[0].path == path then 0 else 1 + IndexOf(list[1..], path)
  }

  /** The path's entry moved to the front, before any trimming. */
  function MovedToFront(list: seq<Book>, o: Opening): (r: seq<Book>) {
    var i := IndexOf(list, o.path);
    if i < |list| then [Merged(list[i], o)] + (list[..i] + list[i + 1..]) else [Fresh(o)] + list
  }

  function Trimmed<T>(list: seq<T>): (r: seq<T>)
    ensures |r| <= MAX_RECENT_BOOKS
  {
    if |list| > MAX_RECENT_BOOKS then list[..MAX_RECENT_BOOKS] else list
  }

  function Added(list: seq<Book>, o: Opening): seq<Book> { Trimmed(MovedToFront(list, o)) }

  /** The list after a run of calls on an empty store. */
  function Listed(run: seq<Opening>): seq<Book> {
    if run == [] then [] else Added(Listed(run[..|run| - 1]), run[|run| - 1])
  }

  // ---------- which books, in which order ----------

  /** The number of the last call that opened the path, or -1. */
  function LastOpened(run: seq<Opening>, path: Str): (n: int)
    ensures -1 <= n < |run|
    ensures n >= 0 ==> run[n].path == path
    ensures forall k :: n < k < |run| ==> run[k].path != path
  {
    if run == [] then -1
    else if run[|run| - 1].path == path then |run| - 1
    else LastOpened(run[..|run| - 1], path)
  }

  /** `list` holds opened paths only, most recently opened first. */
  ghost predicate NewestFirst(run: seq<Opening>, list: seq<Book>) {
    && (forall i :: 0 <= i < |list| ==> LastOpened(run, list[i].path) >= 0)
    && (forall i, j :: 0 <= i < j < |list| ==> LastOpened(run, list[i].path) > LastOpened(run, list[j].path))
  }

  ghost predicate Lists(list: seq<Book>, path: Str) {
    exists i :: 0 <= i < |list| && list[i].path == path
  }

  /** An opened path is missing only from a full list, and then every listed path was opened later. */
  ghost predicate MissesOlderOnly(run: seq<Opening>, list: seq<Book>) {
    forall path: Str :: LastOpened(run, path) >= 0 && !Lists(list, path) ==>
      && |list| == 10
      && forall i :: 0 <= i < |list| ==> LastOpened(run, path) < LastOpened(run, list[i].path)
  }

  /** After any calls the list shows exactly the ten most recently opened distinct paths, newest first. */
  lemma {:induction false} ShowsTheTenMostRecent(run: seq<Opening>)
    ensures |Listed(run)| <= 10
    ensures NewestFirst(run, Listed(run)) && MissesOlderOnly(run, Listed(run))
  {
    hide NewestFirst, MissesOlderOnly, MovedToFront, LastOpened, IndexOf, Merged, Fresh;
    if run == [] {
      NothingOpened();
    } else {
      var init, o := run[..|run| - 1], run[|run| - 1];
      ShowsTheTenMostRecent(init);
      assert init + [o] == run;
      MoveKeepsOrder(init, Listed(init), o);
      MoveMissesOlder(init, Listed(init), o);
    }
  }

  lemma NothingOpened()
    ensures NewestFirst([], []) && MissesOlderOnly([], [])
  {
  }

  /** Where the entries of the moved list come from. */
  lemma MovedShape(list: seq<Book>, o: Opening)
    ensures var at, moved := IndexOf(list, o.path), MovedToFront(list, o);
            && |moved| == (if at < |list| then |list| else |list| + 1)
            && moved[0].path == o.path
            && forall k :: 0 < k < |moved| ==> moved[k] == list[if k <= at then k - 1 else k]
  {
    hide IndexOf;
  }

  lemma WhereMoved(list: seq<Book>, o: Opening, j: nat)
    requires j < |list| && j != IndexOf(list, o.path)
    ensures var at, k := IndexOf(list, o.path), if j < IndexOf(list, o.path) then j + 1 else j;
            0 < k < |MovedToFront(list, o)| && MovedToFront(list, o)[k] == list[j]
  {
    MovedShape(list, o);
  }

  lemma OneMoreOpening(run: seq<Opening>, o: Opening, path: Str)
    ensures LastOpened(run + [o], path) == if path == o.path then |run| else LastOpened(run, path)
  {
    assert (run + [o])[..|run|] == run;
  }

  /** Entry `k` of the moved list, behind the front, was entry `j` and keeps its time. */
  lemma TimeBehindTheFront(run: seq<Opening>, list: seq<Book>, o: Opening, k: nat) returns (j: nat)
    requires NewestFirst(run, list) && 0 < k < |MovedToFront(list, o)|
    ensures j == if k <= IndexOf(list, o.path) then k - 1 else k
    ensures j < |list| && MovedToFront(list, o)[k] == list[j] && list[j].path != o.path
    ensures LastOpened(run + [o], list[j].path) == LastOpened(run, list[j].path)
  {
    hide MovedToFront, LastOpened;
    MovedShape(list, o);
    j := if k <= IndexOf(list, o.path) then k - 1 else k;
    OneMoreOpening(run, o, list[j].path);
  }

  /** Behind the front stand the other entries, in their old order. */
  lemma MoveKeepsOrder(run: seq<Opening>, list: seq<Book>, o: Opening)
    requires NewestFirst(run, list)
    ensures NewestFirst(run + [o], MovedToFront(list, o)) && NewestFirst(run + [o], Added(list, o))
  {
    hide MovedToFront, LastOpened, IndexOf;
    var moved, after := MovedToFront(list, o), run + [o];
    MovedShape(list, o);
    OneMoreOpening(run, o, o.path);
    forall k | 0 < k < |moved|
      ensures 0 <= LastOpened(after, moved[k].path) < LastOpened(after, moved[0].path)
    {
      var j := TimeBehindTheFront(run, list, o, k);
    }
    forall i, k | 0 < i < k < |moved|
      ensures LastOpened(after, moved[i].path) > LastOpened(after, moved[k].path)
    {
      var j1 := TimeBehindTheFront(run, list, o, i);
      var j2 := TimeBehindTheFront(run, list, o, k);
    }
  }

  lemma MoveMissesOlder(run: seq<Opening>, list: seq<Book>, o: Opening)
    requires |list| <= MAX_RECENT_BOOKS && NewestFirst(run, list) && MissesOlderOnly(run, list)
    ensures MissesOlderOnly(run + [o], Added(list, o))
  {
    hide MovedToFront, Merged, LastOpened, IndexOf, Lists, NewestFirst, Added;
    var after, added := run + [o], Added(list, o);
    MoveKeepsOrder(run, list, o);
    forall path: Str | LastOpened(after, path) >= 0 && !Lists(added, path)
      ensures |added| == MAX_RECENT_BOOKS
      ensures forall i :: 0 <= i < |added| ==> LastOpened(after, path) < LastOpened(after, added[i].path)
    {
      MissedIsOlder(run, list, o, path);
      LastIsLeast(after, added);
    }
  }

  lemma LastIsLeast(run: seq<Opening>, list: seq<Book>)
    requires NewestFirst(run, list)
    ensures forall i :: 0 <= i < |list| ==> LastOpened(run, list[|list| - 1].path) <= LastOpened(run, list[i].path)
  {
    hide LastOpened;
  }

  /** A path that was opened and is missing was opened before the last entry. */
  lemma MissedIsOlder(run: seq<Opening>, list: seq<Book>, o: Opening, path: Str)
    requires |list| <= MAX_RECENT_BOOKS && NewestFirst(run, list) && MissesOlderOnly(run, list)
    requires LastOpened(run + [o], path) >= 0 && !Lists(Added(list, o), path)
    ensures |Added(list, o)| == MAX_RECENT_BOOKS
    ensures LastOpened(run + [o], path) < LastOpened(run + [o], Added(list, o)[MAX_RECENT_BOOKS - 1].path)
  {
    hide MovedToFront, Merged, LastOpened, IndexOf, Lists;
    var added := Added(list, o);
    MovedShape(list, o);
    FrontIsListed(added, path);
    OneMoreOpening(run, o, path);
    if Lists(list, path) { StillListed(list, o, path); }
    OneMoreOpening(run, o, added[|added| - 1].path);
  }

  lemma FrontIsListed(list: seq<Book>, path: Str)
    ensures list != [] && list[0].path == path ==> Lists(list, path)
  {
  }

  /** A path that was listed is only lost off the end of a full list. */
  lemma StillListed(list: seq<Book>, o: Opening, path: Str)
    requires |list| <= MAX_RECENT_BOOKS && Lists(list, path) && path != o.path
    ensures Lists(Added(list, o), path)
            || (|list| == MAX_RECENT_BOOKS && IndexOf(list, o.path) == |list| && list[|list| - 1].path == path)
  {
    hide MovedToFront, IndexOf, Trimmed, Lists;
    var j := ListedAt(list, path);
    var k := if j < IndexOf(list, o.path) then j + 1 else j;
    WhereMoved(list, o, j);
    TrimmedLists(MovedToFront(list, o), k);
    assert k >= MAX_RECENT_BOOKS ==> j == MAX_RECENT_BOOKS - 1 && |list| == MAX_RECENT_BOOKS;
  }

  lemma ListedAt(list: seq<Book>, path: Str) returns (j: nat)
    requires Lists(list, path)
    ensures j < |list| && list[j].path == path
  {
    j :| 0 <= j < |list| && list[j].path == path;
  }

  lemma TrimmedLists(moved: seq<Book>, k: nat)
    requires k < |moved|
    ensures k < MAX_RECENT_BOOKS ==> Lists(Trimmed(moved), moved[k].path)
  {
    if k < MAX_RECENT_BOOKS { assert Trimmed(moved)[k] == moved[k]; }
  }

  // ---------- what the entries say ----------

  /** The history without a bound. */
  function History(run: seq<Opening>): seq<Book> {
    if run == [] then [] else MovedToFront(History(run[..|run| - 1]), run[|run| - 1])
  }

  /** The call reopens a book that has fallen off the list and leaves out metadata the
      history still has. */
  predicate ForgetsMetadata(history: seq<Book>, o: Opening) {
    var i := IndexOf(history, o.path);
    MAX_RECENT_BOOKS <= i < |history| && Merged(history[i], o) != Fresh(o)
  }

  /** One call keeps the list the top of the history exactly when it forgets nothing. */
  lemma AddRefinesHistory(history: seq<Book>, o: Opening)
    ensures Added(Trimmed(history), o) == Trimmed(MovedToFront(history, o)) <==> !ForgetsMetadata(history, o)
  {
    var i, list := IndexOf(history, o.path), Trimmed(history);
    IndexInTrimmed(history, o.path);
    FrontsAgree(history, o);
    hide MovedToFront, Merged, IndexOf, ForgetsMetadata;
    MovedShape(list, o);
    MovedShape(history, o);
    var left, right := Added(list, o), Trimmed(MovedToFront(history, o));
    assert |left| == |right|;
    assert forall k :: 0 < k < |left| ==> left[k] == right[k];
  }

  lemma FrontsAgree(history: seq<Book>, o: Opening)
    requires IndexOf(Trimmed(history), o.path)
             == if IndexOf(history, o.path) < |Trimmed(history)| then IndexOf(history, o.path) else |Trimmed(history)|
    ensures MovedToFront(Trimmed(history), o)[0] == MovedToFront(history, o)[0] <==> !ForgetsMetadata(history, o)
  {
  }

  lemma IndexInTrimmed(history: seq<Book>, path: Str)
    ensures IndexOf(Trimmed(history), path)
            == if IndexOf(history, path) < |Trimmed(history)| then IndexOf(history, path) else |Trimmed(history)|
  {
    var i := IndexOf(Trimmed(history), path);
    assert i < |Trimmed(history)| ==> Trimmed(history)[i] == history[i];
    assert forall j :: 0 <= j < |Trimmed(history)| ==> Trimmed(history)[j] == history[j];
  }

  /** After `n` calls the list is the top ten of the history. */
  ghost predicate TopOfHistory(run: seq<Opening>, n: nat) {
    n <= |run| && Listed(run[..n]) == Trimmed(History(run[..n]))
  }

  /** Call `n` leaves out nothing that only the history still has. */
  ghost predicate ForgetsNothing(run: seq<Opening>, n: nat) {
    n < |run| && !ForgetsMetadata(History(run[..n]), run[n])
  }

  lemma OneMoreCall(run: seq<Opening>, n: nat)
    requires n < |run| && TopOfHistory(run, n)
    ensures TopOfHistory(run, n + 1) <==> ForgetsNothing(run, n)
  {
    hide Added, Trimmed, MovedToFront, ForgetsMetadata;
    AddRefinesHistory(History(run[..n]), run[n]);
    assert run[..n + 1][..n] == run[..n];
  }

  lemma TopAtFirst(run: seq<Opening>)
    ensures TopOfHistory(run, 0)
  {
    hide MovedToFront;
    assert run[..0] == [];
  }

  lemma {:induction false} TopUntilForgotten(run: seq<Opening>, n: nat)
    requires n <= |run| && forall k: nat :: k < n ==> ForgetsNothing(run, k)
    ensures TopOfHistory(run, n)
  {
    hide ForgetsNothing, TopOfHistory, Listed, History;
    if n == 0 {
      TopAtFirst(run);
    } else {
      TopUntilForgotten(run, n - 1);
      OneMoreCall(run, n - 1);
    }
  }

  /** Throughout a run the list is the top ten of the unbounded history, metadata and
      all, exactly when no call forgets metadata of a book that had fallen off. */
  lemma ListIsTopOfHistory(run: seq<Opening>)
    ensures (forall n: nat :: n <= |run| ==> TopOfHistory(run, n))
       <==> (forall n: nat :: n < |run| ==> ForgetsNothing(run, n))
  {
    hide TopOfHistory, ForgetsNothing;
    if forall n: nat :: n < |run| ==> ForgetsNothing(run, n) {
      forall n: nat | n <= |run| ensures TopOfHistory(run, n) { TopUntilForgotten(run, n); }
    }
    if forall n: nat :: n <= |run| ==> TopOfHistory(run, n) {
      forall n: nat | n < |run| ensures ForgetsNothing(run, n) { OneMoreCall(run, n); }
    }
  }

  /** The first `n` of sixteen different books, opened one after the other with a title. */
  function Openings(n: nat): (r: seq<Opening>)
    requires n <= 16
    ensures |r| == n
  {
    seq(n, k requires 0 <= k < n => Opening(Zeros(k + 1), TITLE, [], [], []))
  }

  const TITLE: Str := [84]

  lemma {:induction false} HistoryOfOpenings(n: nat)
    requires n <= 16
    ensures |History(Openings(n))| == n
    ensures forall i :: 0 <= i < n ==> History(Openings(n))[i] == Book(Zeros(n - i), TITLE, [], [], [], 0, 0)
  {
    if n == 0 {
    } else {
      hide History, Openings;
      HistoryOfOpenings(n - 1);
      NewestOfOpenings(n, History(Openings(n - 1)));
    }
  }

  lemma NewestOfOpenings(n: nat, before: seq<Book>)
    requires 0 < n <= 16 && before == History(Openings(n - 1))
    requires forall i :: 0 <= i < |before| ==> |before[i].path| < n
    ensures History(Openings(n)) == [Book(Zeros(n), TITLE, [], [], [], 0, 0)] + before
  {
    hide MovedToFront, Openings;
    var o := Opening(Zeros(n), TITLE, [], [], []);
    OpeningsExtend(n);
    NewPathGoesInFront(before, o);
  }

  lemma OpeningsExtend(n: nat)
    requires 0 < n <= 16
    ensures Openings(n)[..n - 1] == Openings(n - 1) && Openings(n)[n - 1] == Opening(Zeros(n), TITLE, [], [], [])
  {
  }

  lemma NewPathGoesInFront(list: seq<Book>, o: Opening)
    requires forall i :: 0 <= i < |list| ==> list[i].path != o.path
    ensures MovedToFront(list, o) == [Fresh(o)] + list
  {
    hide Merged;
    var i := IndexOf(list, o.path);
  }

  lemma EachOpeningIsNew(run: seq<Opening>, k: nat)
    requires run == Openings(11) && k < 11
    ensures ForgetsNothing(run, k)
  {
    hide History;
    HistoryOfOpenings(k);
    assert run[..k] == Openings(k);
    var history := History(Openings(k));
    assert forall i :: 0 <= i < k ==> |history[i].path| < |run[k].path|;
  }

  lemma FirstIsElevenths(path: Str)
    requires path == Zeros(1)
    ensures var history := History(Openings(11));
            |history| == 11 && IndexOf(history, path) == 10 && history[10].title == TITLE
  {
    hide History;
    HistoryOfOpenings(11);
    var history := History(Openings(11));
    assert history[10].path == path;
    assert forall i :: 0 <= i < 10 ==> |history[i].path| > 1;
  }

  /** A failing input: eleven books opened in turn, and then the first of them again
      without its title.  It has fallen off the list, so its title is lost. */
  lemma ReopeningLosesTheTitle()
    ensures var run, again := Openings(11), Opening(Zeros(1), [], [], [], []);
            && ForgetsMetadata(History(run), again)
            && Listed(run) == Trimmed(History(run))
            && Listed(run + [again]) != Trimmed(History(run + [again]))
            && History(run + [again])[0].title == TITLE
  {
    hide Added, Trimmed, Openings, IndexOf, ForgetsNothing;
    var run, again := Openings(11), Opening(Zeros(1), [], [], [], []);
    FirstIsElevenths(again.path);
    forall k: nat | k < 11 ensures ForgetsNothing(run, k) { EachOpeningIsNew(run, k); }
    TopUntilForgotten(run, 11);
    assert run[..11] == run;
    AddRefinesHistory(History(run), again);
    assert (run + [again])[..11] == run;
  }

  /** The last non-empty value that the calls gave for the path. */
  function LastGiven(run: seq<Opening>, path: Str, field: Opening -> Str): Str {
    if run == [] then []
    else
      var o := run[|run| - 1];
      if o.path == path && field(o) != [] then field(o) else LastGiven(run[..|run| - 1], path, field)
  }

  ghost predicate Describes(run: seq<Opening>, b: Book) {
    && LastOpened(run, b.path) >= 0
    && b.title == LastGiven(run, b.path, (o: Opening) => o.title)
    && b.author == LastGiven(run, b.path, (o: Opening) => o.author)
    && b.cover == LastGiven(run, b.path, (o: Opening) => o.cover)
    && b.source == run[LastOpened(run, b.path)].source
    && b.progress == 0 && b.readingTime == 0
  }

  lemma {:induction false} NeverGiven(run: seq<Opening>, path: Str, field: Opening -> Str)
    requires LastOpened(run, path) < 0
    ensures LastGiven(run, path, field) == []
  {
    if run == [] {
    } else {
      NeverGiven(run[..|run| - 1], path, field);
    }
  }

  lemma OneMoreGiven(run: seq<Opening>, o: Opening, path: Str, field: Opening -> Str)
    ensures LastGiven(run + [o], path, field)
            == if path == o.path && field(o) != [] then field(o) else LastGiven(run, path, field)
  {
    assert (run + [o])[..|run|] == run;
  }

  /** An untouched entry stays right. */
  lemma StillDescribes(run: seq<Opening>, o: Opening, b: Book)
    requires Describes(run, b) && b.path != o.path
    ensures Describes(run + [o], b)
  {
    hide LastGiven, LastOpened;
    OneMoreOpening(run, o, b.path);
    OneMoreGiven(run, o, b.path, (o: Opening) => o.title);
    OneMoreGiven(run, o, b.path, (o: Opening) => o.author);
    OneMoreGiven(run, o, b.path, (o: Opening) => o.cover);
  }

  lemma MergeDescribes(run: seq<Opening>, o: Opening, known: Book)
    requires Describes(run, known) && known.path == o.path
    ensures Describes(run + [o], Merged(known, o))
  {
    hide LastGiven, LastOpened;
    OneMoreOpening(run, o, o.path);
    OneMoreGiven(run, o, o.path, (o: Opening) => o.title);
    OneMoreGiven(run, o, o.path, (o: Opening) => o.author);
    OneMoreGiven(run, o, o.path, (o: Opening) => o.cover);
  }

  lemma FreshDescribes(run: seq<Opening>, o: Opening)
    requires LastOpened(run, o.path) < 0
    ensures Describes(run + [o], Fresh(o))
  {
    hide LastGiven, LastOpened;
    OneMoreOpening(run, o, o.path);
    NeverGiven(run, o.path, (o: Opening) => o.title);
    NeverGiven(run, o.path, (o: Opening) => o.author);
    NeverGiven(run, o.path, (o: Opening) => o.cover);
    OneMoreGiven(run, o, o.path, (o: Opening) => o.title);
    OneMoreGiven(run, o, o.path, (o: Opening) => o.author);
    OneMoreGiven(run, o, o.path, (o: Opening) => o.cover);
  }

  ghost predicate DescribesAll(run: seq<Opening>, list: seq<Book>) {
    && (forall i :: 0 <= i < |list| ==> Describes(run, list[i]))
    && (forall i, j :: 0 <= i < j < |list| ==> list[i].path != list[j].path)
    && (forall path: Str :: LastOpened(run, path) >= 0 ==> Lists(list, path))
  }

  lemma MoveKeepsDescriptions(run: seq<Opening>, list: seq<Book>, o: Opening)
    requires DescribesAll(run, list)
    ensures DescribesAll(run + [o], MovedToFront(list, o))
  {
    hide MovedToFront, Describes, LastOpened, IndexOf, Merged, Fresh;
    var at, after, moved := IndexOf(list, o.path), run + [o], MovedToFront(list, o);
    MovedShape(list, o);
    FrontOf(list, o);
    forall k | 0 <= k < |moved| ensures Describes(after, moved[k]) {
      if k > 0 {
        StillDescribes(run, o, moved[k]);
      } else if at < |list| {
        MergeDescribes(run, o, list[at]);
      } else {
        FreshDescribes(run, o);
      }
    }
    forall path: Str | LastOpened(after, path) >= 0 ensures Lists(moved, path) {
      OneMoreOpening(run, o, path);
      if path == o.path {
        FrontIsListed(moved, path);
      } else {
        var j :| 0 <= j < |list| && list[j].path == path;
        WhereMoved(list, o, j);
      }
    }
  }

  lemma FrontOf(list: seq<Book>, o: Opening)
    ensures var at := IndexOf(list, o.path);
            MovedToFront(list, o)[0] == if at < |list| then Merged(list[at], o) else Fresh(o)
  {
  }

  /** The history has every opened book once, with the latest metadata any call gave. */
  lemma {:induction false} HistoryKeepsMetadata(run: seq<Opening>)
    ensures DescribesAll(run, History(run))
  {
    if run == [] {
    } else {
      hide DescribesAll, MovedToFront;
      var init, o := run[..|run| - 1], run[|run| - 1];
      HistoryKeepsMetadata(init);
      assert run == init + [o];
      MoveKeepsDescriptions(init, History(init), o);
    }
  }
}
