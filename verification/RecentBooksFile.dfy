/**
 The file of the recent-books store of firmware/src/RecentBooksStore.cpp: what its
 unchecked writes leave, what its unchecked reads make of any file, and the store.
 */
module RecentBooksFile {

  import opened Wrappers
  import opened Bytes
  import opened Sequences
  import opened LengthPrefixed
  import opened RecentBooks
  import SdCard

  const FILE_VERSION: byte := 4

  // ---------- the file ----------

  /** What the file keeps of a book. */
  function Persisted(b: Book): Book { b.(progress := 0, readingTime := 0) }

  function AllPersisted(list: seq<Book>): seq<Book> {
    if list == [] then [] else [Persisted(list[0])] + AllPersisted(list[1..])
  }

  function BookBytes(b: Book): seq<byte> {
    StringBytes(b.path)
    + (StringBytes(b.title) + (StringBytes(b.author) + (StringBytes(b.cover) + StringBytes(b.source))))
  }

  function BooksBytes(list: seq<Book>): seq<byte> {
    if list == [] then [] else BookBytes(list[0]) + BooksBytes(list[1..])
  }

  function FileBytes(list: seq<Book>): seq<byte> { [FILE_VERSION, |list| % 256] + BooksBytes(list) }

  datatype LoadError = NoFile | OldVersion | UnknownVersion | Truncated

  /** `readString`: a refused length leaves an empty string and the reader right after the length. */
  function ReadString(bytes: seq<byte>, pos: nat): (r: Option<(Str, nat)>) {
    match FieldAt(bytes, pos)
    case Cut => None
    case TooLong(next) => Some(([], next))
    case Found(s, next) => Some((s, next))
  }

  function ReadBook(bytes: seq<byte>, pos: nat): Option<(Book, nat)> {
    match ReadString(bytes, pos) case None => None case Some(path) =>
    match ReadString(bytes, path.1) case None => None case Some(title) =>
    match ReadString(bytes, title.1) case None => None case Some(author) =>
    match ReadString(bytes, author.1) case None => None case Some(cover) =>
    match ReadString(bytes, cover.1) case None => None case Some(source) =>
    Some((Book(path.0, title.0, author.0, cover.0, source.0, 0, 0), source.1))
  }

  function ReadBooks(bytes: seq<byte>, pos: nat, n: nat): Option<seq<Book>>
    decreases n
  {
    if n == 0 then Some([])
    else
      match ReadBook(bytes, pos)
      case None => None
      case Some(b) =>
        match ReadBooks(bytes, b.1, n - 1)
        case None => None
        case Some(rest) => Some([b.0] + rest)
  }

  function Loaded(file: Option<seq<byte>>): Result<seq<Book>, LoadError> {
    if file.None? then Err(NoFile)
    else if |file.value| == 0 then Err(Truncated)
    else if file.value[0] == 1 || file.value[0] == 2 then Err(OldVersion)
    else if file.value[0] != FILE_VERSION then Err(UnknownVersion)
    else if |file.value| == 1 then Err(Truncated)
    else
      match ReadBooks(file.value, 2, file.value[1])
      case None => Err(Truncated)
      case Some(list) => Ok(list)
  }

  /** Every string is short enough for the reader. */
  predicate ShortBook(b: Book) {
    && |b.path| <= MAX_STRING && |b.title| <= MAX_STRING && |b.author| <= MAX_STRING
    && |b.cover| <= MAX_STRING && |b.source| <= MAX_STRING
  }

  lemma StringReadsBack(bytes: seq<byte>, pos: nat, s: Str)
    requires HoldsAt(bytes, pos, StringBytes(s))
    ensures ReadString(bytes, pos)
            == if |s| <= MAX_STRING then Some((s, pos + |StringBytes(s)|)) else Some(([], pos + 4))
  {
    hide HoldsAt, FieldAt;
    FieldReadsBack(bytes, pos, s);
  }

  lemma BookReadsBack(bytes: seq<byte>, pos: nat, b: Book)
    requires HoldsAt(bytes, pos, BookBytes(b))
    ensures ShortBook(b) ==> ReadBook(bytes, pos) == Some((Persisted(b), pos + |BookBytes(b)|))
    ensures !ShortBook(b) ==> ReadBook(bytes, pos).None? || ReadBook(bytes, pos).value.0 != Persisted(b)
  {
    hide HoldsAt, ReadString, StringBytes;
    var s1, s2, s3 := StringBytes(b.path), StringBytes(b.title), StringBytes(b.author);
    var s4, s5 := StringBytes(b.cover), StringBytes(b.source);
    HoldsBoth(bytes, pos, s1, s2 + (s3 + (s4 + s5)));
    HoldsBoth(bytes, pos + |s1|, s2, s3 + (s4 + s5));
    HoldsBoth(bytes, pos + |s1| + |s2|, s3, s4 + s5);
    HoldsBoth(bytes, pos + |s1| + |s2| + |s3|, s4, s5);
    StringReadsBack(bytes, pos, b.path);
    StringReadsBack(bytes, pos + |s1|, b.title);
    StringReadsBack(bytes, pos + |s1| + |s2|, b.author);
    StringReadsBack(bytes, pos + |s1| + |s2| + |s3|, b.cover);
    StringReadsBack(bytes, pos + |s1| + |s2| + |s3| + |s4|, b.source);
  }

  lemma SameParts<T>(a: T, x: seq<T>, b: T, y: seq<T>)
    ensures [a] + x == [b] + y <==> a == b && x == y
  {
    if [a] + x == [b] + y {
      assert ([a] + x)[0] == a && ([b] + y)[0] == b;
      assert ([a] + x)[1..] == x && ([b] + y)[1..] == y;
    }
  }

  lemma {:induction false} BooksReadBack(bytes: seq<byte>, pos: nat, list: seq<Book>)
    requires HoldsAt(bytes, pos, BooksBytes(list))
    ensures ReadBooks(bytes, pos, |list|) == Some(AllPersisted(list))
       <==> forall i :: 0 <= i < |list| ==> ShortBook(list[i])
    decreases |list|
  {
    hide HoldsAt, ReadBook, BookBytes, Persisted, ShortBook, FieldAt;
    if list == [] {
    } else {
      HoldsBoth(bytes, pos, BookBytes(list[0]), BooksBytes(list[1..]));
      BookReadsBack(bytes, pos, list[0]);
      BooksReadBack(bytes, pos + |BookBytes(list[0])|, list[1..]);
      var first := ReadBook(bytes, pos);
      if first.Some? {
        var rest := ReadBooks(bytes, first.value.1, |list| - 1);
        if rest.Some? {
          SameParts(first.value.0, rest.value, Persisted(list[0]), AllPersisted(list[1..]));
        }
      }
      assert forall i :: 0 < i < |list| ==> list[i] == list[1..][i - 1];
      assert forall i :: 0 <= i < |list| - 1 ==> list[1..][i] == list[i + 1];
    }
  }

  /** Saving and loading gives back what the file keeps of each book exactly when no
      string is longer than the reader takes. */
  lemma SaveThenLoad(list: seq<Book>)
    requires |list| <= MAX_RECENT_BOOKS
    ensures Loaded(Some(FileBytes(list))) == Ok(AllPersisted(list))
       <==> forall i :: 0 <= i < |list| ==> ShortBook(list[i])
  {
    hide ReadBooks, AllPersisted, ShortBook, BooksBytes;
    var bytes := FileBytes(list);
    assert bytes[2..] == BooksBytes(list);
    BooksReadBack(bytes, 2, list);
  }

  // ---------- what the unchecked writes leave in the file ----------

  function BookChunks(b: Book): seq<seq<byte>> {
    [U32(|b.path|), b.path, U32(|b.title|), b.title, U32(|b.author|), b.author, U32(|b.cover|), b.cover,
     U32(|b.source|), b.source]
  }

  function BooksChunks(list: seq<Book>): seq<seq<byte>> {
    if list == [] then [] else BookChunks(list[0]) + BooksChunks(list[1..])
  }

  /** The arguments of the `write` calls of one save. */
  function Chunks(list: seq<Book>): seq<seq<byte>> { [[FILE_VERSION], [|list| % 256]] + BooksChunks(list) }

  /** What a `write` appends when it reports `answer` bytes. */
  function Appended(answer: int, chunk: seq<byte>): (r: seq<byte>)
    ensures r <= chunk
  {
    if answer <= 0 then [] else if answer < |chunk| then chunk[..answer] else chunk
  }

  /** What calls `n`, `n` + 1, ... append when nobody looks at their answers. */
  function Kept(o: SdCard.Outcomes, n: nat, chunks: seq<seq<byte>>): seq<byte> {
    if chunks == [] then []
    else Kept(o, n, chunks[..|chunks| - 1]) + Appended(o(n + |chunks| - 1), chunks[|chunks| - 1])
  }

  /** No call took less than its chunk. */
  predicate AllTaken(o: SdCard.Outcomes, n: nat, chunks: seq<seq<byte>>) {
    forall k :: 0 <= k < |chunks| ==> chunks[k] == [] || o(n + k) >= |chunks[k]|
  }

  lemma {:induction false} KeptIsWholeIff(o: SdCard.Outcomes, n: nat, chunks: seq<seq<byte>>)
    ensures |Kept(o, n, chunks)| <= |Joined(chunks)|
    ensures |Kept(o, n, chunks)| == |Joined(chunks)| <==> AllTaken(o, n, chunks)
    ensures AllTaken(o, n, chunks) ==> Kept(o, n, chunks) == Joined(chunks)
  {
    if chunks == [] {
    } else {
      var init := chunks[..|chunks| - 1];
      KeptIsWholeIff(o, n, init);
      assert AllTaken(o, n, chunks) <==>
          AllTaken(o, n, init) && (chunks[|init|] == [] || o(n + |init|) >= |chunks[|init|]|);
    }
  }

  lemma JoinedBook(b: Book)
    ensures Joined(BookChunks(b)) == BookBytes(b)
  {
    hide Joined, U32;
    var s1, s2, s3: seq<seq<byte>> := [U32(|b.path|), b.path], [U32(|b.title|), b.title], [U32(|b.author|), b.author];
    var s4, s5: seq<seq<byte>> := [U32(|b.cover|), b.cover], [U32(|b.source|), b.source];
    JoinedTwo(s1[0], s1[1]);
    JoinedTwo(s2[0], s2[1]);
    JoinedTwo(s3[0], s3[1]);
    JoinedTwo(s4[0], s4[1]);
    JoinedTwo(s5[0], s5[1]);
    JoinedTwice(s4, s5);
    JoinedTwice(s3, s4 + s5);
    JoinedTwice(s2, s3 + (s4 + s5));
    JoinedTwice(s1, s2 + (s3 + (s4 + s5)));
    assert BookChunks(b) == s1 + (s2 + (s3 + (s4 + s5)));
  }

  lemma {:induction false} JoinedBooks(list: seq<Book>)
    ensures Joined(BooksChunks(list)) == BooksBytes(list)
  {
    hide Joined, BookChunks, BookBytes;
    if list == [] {
      NothingJoined();
    } else {
      JoinedBooks(list[1..]);
      JoinedBook(list[0]);
      JoinedTwice(BookChunks(list[0]), BooksChunks(list[1..]));
    }
  }

  lemma NothingJoined()
    ensures Joined<byte>([]) == []
  {
  }

  lemma ChunksJoinToFile(list: seq<Book>)
    ensures Joined(Chunks(list)) == FileBytes(list)
  {
    hide Joined, BooksChunks, BooksBytes;
    var version, count: seq<byte> := [FILE_VERSION], [|list| % 256];
    JoinedTwo(version, count);
    JoinedBooks(list);
    JoinedTwice([version, count], BooksChunks(list));
  }

  lemma StringFits(bytes: seq<byte>, pos: nat)
    ensures var s := ReadString(bytes, pos);
            s.Some? ==> |s.value.0| <= MAX_STRING && s.value.1 == pos + 4 + |s.value.0| <= |bytes|
  {
  }

  /** Whatever is read as a book fills as many bytes as the book would when written. */
  lemma BookFits(bytes: seq<byte>, pos: nat)
    ensures var b := ReadBook(bytes, pos);
            b.Some? ==> ShortBook(b.value.0) && b.value.1 == pos + |BookBytes(b.value.0)| <= |bytes|
  {
    hide ReadString, StringBytes;
    if ReadBook(bytes, pos).Some? {
      var b := ReadBook(bytes, pos).value.0;
      var p1 := pos + |StringBytes(b.path)|;
      var p2 := p1 + |StringBytes(b.title)|;
      var p3 := p2 + |StringBytes(b.author)|;
      StringFits(bytes, pos);
      StringFits(bytes, p1);
      StringFits(bytes, p2);
      StringFits(bytes, p3);
      StringFits(bytes, p3 + |StringBytes(b.cover)|);
    }
  }

  lemma {:induction false} BooksFit(bytes: seq<byte>, pos: nat, n: nat)
    requires pos <= |bytes|
    ensures var list := ReadBooks(bytes, pos, n);
            list.Some? ==> && pos + |BooksBytes(list.value)| <= |bytes|
                           && forall i :: 0 <= i < |list.value| ==> ShortBook(list.value[i])
    decreases n
  {
    hide ReadBook, BookBytes, ShortBook;
    if n == 0 {
    } else if ReadBooks(bytes, pos, n).Some? {
      BookFits(bytes, pos);
      var first := ReadBook(bytes, pos).value;
      BooksFit(bytes, first.1, n - 1);
      var rest := ReadBooks(bytes, first.1, n - 1).value;
      assert ([first.0] + rest)[1..] == rest;
    }
  }

  lemma {:induction false} PersistedBooks(list: seq<Book>)
    ensures |AllPersisted(list)| == |list| && BooksBytes(AllPersisted(list)) == BooksBytes(list)
    ensures forall i :: 0 <= i < |list| ==> AllPersisted(list)[i] == Persisted(list[i])
  {
    if list == [] {
    } else {
      PersistedBooks(list[1..]);
      assert AllPersisted(list)[1..] == AllPersisted(list[1..]);
      assert BookBytes(Persisted(list[0])) == BookBytes(list[0]);
    }
  }

  /** No write of a save is checked.  What it leaves in the file loads as the list exactly
      when every write took all it was given and no string is longer than the reader takes. */
  lemma SavedLoadsIff(o: SdCard.Outcomes, n: nat, list: seq<Book>)
    requires |list| <= MAX_RECENT_BOOKS
    ensures Loaded(Some(Kept(o, n, Chunks(list)))) == Ok(AllPersisted(list))
       <==> AllTaken(o, n, Chunks(list)) && forall i :: 0 <= i < |list| ==> ShortBook(list[i])
  {
    hide ReadBooks, ShortBook, BooksBytes, Kept, AllTaken, Chunks, AllPersisted, Persisted;
    var bytes := Kept(o, n, Chunks(list));
    KeptIsWholeIff(o, n, Chunks(list));
    ChunksJoinToFile(list);
    SaveThenLoad(list);
    if Loaded(Some(bytes)) == Ok(AllPersisted(list)) {
      BooksFit(bytes, 2, bytes[1]);
      PersistedBooks(list);
      forall i | 0 <= i < |list| ensures ShortBook(list[i]) { PersistedIsShort(list[i]); }
    }
  }

  lemma PersistedIsShort(b: Book)
    ensures ShortBook(Persisted(b)) <==> ShortBook(b)
  {
  }

  // ---------- what the unchecked reads make of any file ----------

  /** What the device finds about a book that it opens. */
  datatype Known = Known(title: Str, author: Str, cover: Str)

  type Lookup = Str -> Known

  /** What the variables held that a read past the end of the file leaves as they were. */
  datatype Garbage = Garbage(version: byte, count: byte, lengths: nat -> u32)

  /** The `readString` calls read on whatever happens; `unread` is what the length holds when the
      file ends before it, and a text that is cut off ends in zeros. */
  function StringRead(bytes: seq<byte>, pos: nat, unread: u32): (r: (Str, nat))
    requires pos <= |bytes|
    ensures r.1 <= |bytes|
  {
    var cut := pos + 4 > |bytes|;
    var n, next := if cut then unread else ReadU32(bytes, pos), if cut then |bytes| else pos + 4;
    if n > MAX_STRING then ([], next)
    else
      var stop := if next + n <= |bytes| then next + n else |bytes|;
      (bytes[next..stop] + Zeros(n - (stop - next)), stop)
  }

  /** The `k`-th book of a file; each book is five strings. */
  function BookRead(bytes: seq<byte>, pos: nat, g: Garbage, k: nat): (r: (Book, nat))
    requires pos <= |bytes|
    ensures r.1 <= |bytes|
  {
    var path := StringRead(bytes, pos, g.lengths(5 * k));
    var title := StringRead(bytes, path.1, g.lengths(5 * k + 1));
    var author := StringRead(bytes, title.1, g.lengths(5 * k + 2));
    var cover := StringRead(bytes, author.1, g.lengths(5 * k + 3));
    var source := StringRead(bytes, cover.1, g.lengths(5 * k + 4));
    (Book(path.0, title.0, author.0, cover.0, source.0, 0, 0), source.1)
  }

  /** A book of a version 1 or 2 file: opened again, and only when that finds neither title
      nor author are those of a version 2 file read. */
  function OldBookRead(version: byte, lookup: Lookup, bytes: seq<byte>, pos: nat, g: Garbage, k: nat): (r: (Book, nat))
    requires pos <= |bytes|
    ensures r.1 <= |bytes|
  {
    var path := StringRead(bytes, pos, g.lengths(5 * k));
    var known := lookup(path.0);
    if Unknown(known) && version == 2 then
      var title := StringRead(bytes, path.1, g.lengths(5 * k + 1));
      var author := StringRead(bytes, title.1, g.lengths(5 * k + 2));
      (Book(path.0, title.0, author.0, [], [], 0, 0), author.1)
    else
      (Book(path.0, known.title, known.author, known.cover, [], 0, 0), path.1)
  }

  predicate Unknown(known: Known) { known.title == [] && known.author == [] }

  function AnyBookRead(version: byte, lookup: Lookup, bytes: seq<byte>, pos: nat, g: Garbage, k: nat): (r: (Book, nat))
    requires pos <= |bytes|
    ensures r.1 <= |bytes|
  {
    if version == FILE_VERSION then BookRead(bytes, pos, g, k) else OldBookRead(version, lookup, bytes, pos, g, k)
  }

  /** Books `k` to `k` + `n` - 1. */
  function BooksRead(version: byte, lookup: Lookup, bytes: seq<byte>, pos: nat, g: Garbage, k: nat, n: nat):
    (r: seq<Book>)
    requires pos <= |bytes|
    ensures |r| == n
    decreases n
  {
    if n == 0 then []
    else
      var b := AnyBookRead(version, lookup, bytes, pos, g, k);
      [b.0] + BooksRead(version, lookup, bytes, b.1, g, k + 1, n - 1)
  }

  /** The list after `loadFromFile` on a file; none when its version is refused. */
  function ListRead(lookup: Lookup, bytes: seq<byte>, g: Garbage): Option<seq<Book>> {
    var version := if |bytes| == 0 then g.version else bytes[0];
    if version != FILE_VERSION && version != 1 && version != 2 then None
    else
      var count := if |bytes| <= 1 then g.count else bytes[1];
      Some(BooksRead(version, lookup, bytes, if |bytes| <= 2 then |bytes| else 2, g, 0, count))
  }

  lemma BookComplete(bytes: seq<byte>, pos: nat, g: Garbage, k: nat)
    requires pos <= |bytes| && ReadBook(bytes, pos).Some?
    ensures ReadBook(bytes, pos) == Some(BookRead(bytes, pos, g, k))
  {
    hide StringRead, ReadString;
    StringComplete(bytes, pos, g.lengths(5 * k));
    var path := ReadString(bytes, pos).value;
    StringFits(bytes, pos);
    StringComplete(bytes, path.1, g.lengths(5 * k + 1));
    var title := ReadString(bytes, path.1).value;
    StringFits(bytes, path.1);
    StringComplete(bytes, title.1, g.lengths(5 * k + 2));
    var author := ReadString(bytes, title.1).value;
    StringFits(bytes, title.1);
    StringComplete(bytes, author.1, g.lengths(5 * k + 3));
    var cover := ReadString(bytes, author.1).value;
    StringFits(bytes, author.1);
    StringComplete(bytes, cover.1, g.lengths(5 * k + 4));
  }

  lemma StringComplete(bytes: seq<byte>, pos: nat, unread: u32)
    requires pos <= |bytes| && ReadString(bytes, pos).Some?
    ensures ReadString(bytes, pos) == Some(StringRead(bytes, pos, unread))
  {
    var s := ReadString(bytes, pos).value.0;
    assert s + Zeros(0) == s;
  }

  /** A text that is cut off ends in zeros. */
  lemma CutTextIsRead(bytes: seq<byte>, pos: nat, unread: u32)
    requires pos + 4 <= |bytes| && |bytes| - pos - 4 < ReadU32(bytes, pos) <= 4096
    ensures var have, s := |bytes| - pos - 4, StringRead(bytes, pos, unread);
            && s.1 == |bytes| && |s.0| == ReadU32(bytes, pos)
            && s.0[..have] == bytes[pos + 4..] && forall i :: have <= i < |s.0| ==> s.0[i] == 0
  {
  }

  /** When the length itself is cut off the text is as long as the variable says, all zeros. */
  lemma CutLengthIsRead(bytes: seq<byte>, pos: nat, unread: u32)
    requires pos <= |bytes| < pos + 4
    ensures StringRead(bytes, pos, unread) == (Zeros(if unread > 4096 then 0 else unread), |bytes|)
  {
    assert [] + Zeros(unread) == Zeros(unread) && Zeros(0) == [];
  }

  /** A file of fewer than two bytes is taken for whatever the variables held. */
  lemma TinyFileIsRead(lookup: Lookup, bytes: seq<byte>, g: Garbage)
    requires |bytes| < 2
    ensures var version := if bytes == [] then g.version else bytes[0];
            var r := ListRead(lookup, bytes, g);
            if version == 4 || version == 2 || version == 1 then r.Some? && |r.value| == g.count else r == None
  {
  }

  /** Of a file that ends too early, the complete books at its front are still read as they are. */
  lemma {:induction false} FrontIsRead(lookup: Lookup, bytes: seq<byte>, pos: nat, g: Garbage, k: nat, m: nat, n: nat)
    requires pos <= |bytes| && m <= n && ReadBooks(bytes, pos, m).Some?
    ensures BooksRead(FILE_VERSION, lookup, bytes, pos, g, k, n)[..m] == ReadBooks(bytes, pos, m).value
    decreases m
  {
    hide ReadBook, BookRead, OldBookRead;
    if m == 0 {
    } else {
      BookComplete(bytes, pos, g, k);
      BookFits(bytes, pos);
      var b := ReadBook(bytes, pos).value;
      FrontIsRead(lookup, bytes, b.1, g, k + 1, m - 1, n - 1);
      var rest := BooksRead(FILE_VERSION, lookup, bytes, b.1, g, k + 1, n - 1);
      assert ([b.0] + rest)[..m] == [b.0] + rest[..m - 1];
    }
  }

  /** A complete file of the present version is read as what it says, whatever the
      variables held before and whatever the device knows of the books. */
  lemma CompleteIsRead(lookup: Lookup, bytes: seq<byte>, g: Garbage)
    requires Loaded(Some(bytes)).Ok?
    ensures ListRead(lookup, bytes, g) == Some(Loaded(Some(bytes)).value)
  {
    hide ReadBooks, BooksRead;
    FrontIsRead(lookup, bytes, 2, g, 0, bytes[1], bytes[1]);
    var all := BooksRead(FILE_VERSION, lookup, bytes, 2, g, 0, bytes[1]);
    assert all[..bytes[1]] == all;
  }

  lemma BookReadIsShort(version: byte, lookup: Lookup, bytes: seq<byte>, pos: nat, g: Garbage, k: nat)
    requires pos <= |bytes| && version == FILE_VERSION
    ensures ShortBook(AnyBookRead(version, lookup, bytes, pos, g, k).0)
  {
  }

  lemma {:induction false} BooksReadAreShort(lookup: Lookup, bytes: seq<byte>, pos: nat, g: Garbage, k: nat, n: nat)
    requires pos <= |bytes|
    ensures forall i :: 0 <= i < n ==> ShortBook(BooksRead(FILE_VERSION, lookup, bytes, pos, g, k, n)[i])
    decreases n
  {
    hide AnyBookRead, ShortBook;
    if n == 0 {
    } else {
      var b := AnyBookRead(FILE_VERSION, lookup, bytes, pos, g, k);
      BookReadIsShort(FILE_VERSION, lookup, bytes, pos, g, k);
      BooksReadAreShort(lookup, bytes, b.1, g, k + 1, n - 1);
      var rest := BooksRead(FILE_VERSION, lookup, bytes, b.1, g, k + 1, n - 1);
      assert forall i :: 0 < i < n ==> ([b.0] + rest)[i] == rest[i - 1];
    }
  }

  /** A save whose writes all took what they were given is read back by the device as the
      list exactly when no string is longer than the reader takes. */
  lemma SavedIsRead(o: SdCard.Outcomes, n: nat, list: seq<Book>, lookup: Lookup, g: Garbage)
    requires |list| <= MAX_RECENT_BOOKS && AllTaken(o, n, Chunks(list))
    ensures ListRead(lookup, Kept(o, n, Chunks(list)), g) == Some(AllPersisted(list))
       <==> forall i :: 0 <= i < |list| ==> ShortBook(list[i])
  {
    hide ReadBooks, ShortBook, BooksBytes, Kept, AllTaken, Chunks, AllPersisted, Persisted, BooksRead;
    var bytes := Kept(o, n, Chunks(list));
    KeptIsWholeIff(o, n, Chunks(list));
    ChunksJoinToFile(list);
    if forall i :: 0 <= i < |list| ==> ShortBook(list[i]) {
      SavedLoadsIff(o, n, list);
      CompleteIsRead(lookup, bytes, g);
    }
    if ListRead(lookup, bytes, g) == Some(AllPersisted(list)) {
      BooksReadAreShort(lookup, bytes, 2, g, 0, bytes[1]);
      PersistedBooks(list);
      forall i | 0 <= i < |list| ensures ShortBook(list[i]) { PersistedIsShort(list[i]); }
    }
  }

  lemma OneMoreRead(before: seq<Book>, version: byte, lookup: Lookup, bytes: seq<byte>, pos: nat, g: Garbage, k: nat,
                    n: nat)
    requires pos <= |bytes| && n > 0
    ensures var b := AnyBookRead(version, lookup, bytes, pos, g, k);
            before + BooksRead(version, lookup, bytes, pos, g, k, n)
            == (before + [b.0]) + BooksRead(version, lookup, bytes, b.1, g, k + 1, n - 1)
  {
    hide AnyBookRead;
    var b := AnyBookRead(version, lookup, bytes, pos, g, k);
    var rest := BooksRead(version, lookup, bytes, b.1, g, k + 1, n - 1);
    assert before + ([b.0] + rest) == (before + [b.0]) + rest;
  }

  lemma NoneToRead(before: seq<Book>, version: byte, lookup: Lookup, bytes: seq<byte>, pos: nat, g: Garbage, k: nat)
    requires pos <= |bytes|
    ensures before + BooksRead(version, lookup, bytes, pos, g, k, 0) == before
  {
    assert before + [] == before;
  }

  // ---------- files of version 2 ----------

  /** The entries that the reading of version 2 expects: path, title and author. */
  function OldBytes(list: seq<Book>): seq<byte> {
    if list == [] then []
    else StringBytes(list[0].path) + (StringBytes(list[0].title) + (StringBytes(list[0].author) + OldBytes(list[1..])))
  }

  function OldFile(list: seq<Book>): seq<byte> { [2, |list| % 256] + OldBytes(list) }

  /** What should become of an entry: what the device knows, or else what the file says. */
  function Reopened(lookup: Lookup, b: Book): Book {
    var known := lookup(b.path);
    if known.title == [] && known.author == [] then Book(b.path, b.title, b.author, [], [], 0, 0)
    else Book(b.path, known.title, known.author, known.cover, [], 0, 0)
  }

  predicate AllShort(list: seq<Book>) {
    forall i :: 0 <= i < |list| ==>
      |list[i].path| <= MAX_STRING && |list[i].title| <= MAX_STRING && |list[i].author| <= MAX_STRING
  }

  lemma WrittenIsRead(bytes: seq<byte>, pos: nat, s: Str, rest: seq<byte>, unread: u32)
    requires |s| <= MAX_STRING && HoldsAt(bytes, pos, StringBytes(s) + rest)
    ensures pos <= |bytes| && StringRead(bytes, pos, unread) == (s, pos + |StringBytes(s)|)
    ensures HoldsAt(bytes, pos + |StringBytes(s)|, rest)
  {
    HoldsBoth(bytes, pos, StringBytes(s), rest);
    StringReadsBack(bytes, pos, s);
    hide ReadString, StringRead;
    assert pos + |StringBytes(s)| <= |bytes|;
    StringComplete(bytes, pos, unread);
  }

  /** The entry at the front: read whole when the device does not know the book, and only
      its path when it does. */
  lemma OldEntryIsRead(lookup: Lookup, bytes: seq<byte>, pos: nat, g: Garbage, k: nat, list: seq<Book>)
    requires list != [] && AllShort(list) && HoldsAt(bytes, pos, OldBytes(list))
    ensures pos <= |bytes|
    ensures var b := OldBookRead(2, lookup, bytes, pos, g, k);
            && b.0 == Reopened(lookup, list[0])
            && (Unknown(lookup(list[0].path)) ==> HoldsAt(bytes, b.1, OldBytes(list[1..])))
            && (!Unknown(lookup(list[0].path)) ==>
                  HoldsAt(bytes, b.1, StringBytes(list[0].title) + (StringBytes(list[0].author) + OldBytes(list[1..]))))
  {
    hide StringRead, HoldsAt, StringBytes;
    var b := list[0];
    var rest := OldBytes(list[1..]);
    var afterTitle := StringBytes(b.author) + rest;
    var afterPath := StringBytes(b.title) + afterTitle;
    WrittenIsRead(bytes, pos, b.path, afterPath, g.lengths(5 * k));
    var p1 := pos + |StringBytes(b.path)|;
    WrittenIsRead(bytes, p1, b.title, afterTitle, g.lengths(5 * k + 1));
    WrittenIsRead(bytes, p1 + |StringBytes(b.title)|, b.author, rest, g.lengths(5 * k + 2));
  }

  /** Every book but the last is unknown to the device. */
  predicate OnlyLastKnown(lookup: Lookup, paths: seq<Str>) {
    forall i :: 0 <= i < |paths| - 1 ==> lookup(paths[i]).title == [] && lookup(paths[i]).author == []
  }

  function PathsOf(list: seq<Book>): (r: seq<Str>)
    ensures |r| == |list| && forall i :: 0 <= i < |list| ==> r[i] == list[i].path
  {
    seq(|list|, i requires 0 <= i < |list| => list[i].path)
  }

  lemma {:induction false} OldBooksReadBack(lookup: Lookup, bytes: seq<byte>, pos: nat, g: Garbage, k: nat,
                                            list: seq<Book>)
    requires AllShort(list) && HoldsAt(bytes, pos, OldBytes(list)) && OnlyLastKnown(lookup, PathsOf(list))
    ensures pos <= |bytes|
    ensures forall i :: 0 <= i < |list| ==>
              BooksRead(2, lookup, bytes, pos, g, k, |list|)[i] == Reopened(lookup, list[i])
    decreases |list|
  {
    hide BookRead, OldBookRead, OldBytes, Reopened, HoldsAt;
    if list == [] {
      EndHeld(bytes, pos, OldBytes(list));
    } else {
      OldEntryIsRead(lookup, bytes, pos, g, k, list);
      var b := OldBookRead(2, lookup, bytes, pos, g, k);
      if |list| > 1 {
        assert Unknown(lookup(PathsOf(list)[0]));
        assert forall i :: 0 <= i < |list| - 1 ==> PathsOf(list[1..])[i] == PathsOf(list)[i + 1];
        OldBooksReadBack(lookup, bytes, b.1, g, k + 1, list[1..]);
        var rest := BooksRead(2, lookup, bytes, b.1, g, k + 1, |list| - 1);
        assert forall i :: 0 < i < |list| ==> list[i] == list[1..][i - 1] && ([b.0] + rest)[i] == rest[i - 1];
      }
    }
  }

  lemma EndHeld(bytes: seq<byte>, pos: nat, s: seq<byte>)
    requires HoldsAt(bytes, pos, s)
    ensures pos <= |bytes|
  {
  }

  /** After the first known book the title of that book is read as the next path. */
  lemma {:induction false} TitleReadAsPath(lookup: Lookup, bytes: seq<byte>, pos: nat, g: Garbage, k: nat,
                                           list: seq<Book>, i: nat)
    requires AllShort(list) && HoldsAt(bytes, pos, OldBytes(list)) && i + 1 < |list|
    requires !Unknown(lookup(list[i].path)) && forall j :: 0 <= j < i ==> Unknown(lookup(list[j].path))
    ensures pos <= |bytes| && BooksRead(2, lookup, bytes, pos, g, k, |list|)[i + 1].path == list[i].title
    decreases i
  {
    hide BookRead, OldBookRead, OldBytes, Unknown, HoldsAt, StringRead, StringBytes;
    OldEntryIsRead(lookup, bytes, pos, g, k, list);
    var b := OldBookRead(2, lookup, bytes, pos, g, k);
    var rest := BooksRead(2, lookup, bytes, b.1, g, k + 1, |list| - 1);
    assert BooksRead(2, lookup, bytes, pos, g, k, |list|) == [b.0] + rest;
    if i == 0 {
      var afterTitle := StringBytes(list[0].author) + OldBytes(list[1..]);
      WrittenIsRead(bytes, b.1, list[0].title, afterTitle, g.lengths(5 * (k + 1)));
      PathIsFirst(lookup, bytes, b.1, g, k + 1);
    } else {
      assert Unknown(lookup(list[0].path));
      TitleReadAsPath(lookup, bytes, b.1, g, k + 1, list[1..], i - 1);
    }
  }

  lemma PathIsFirst(lookup: Lookup, bytes: seq<byte>, pos: nat, g: Garbage, k: nat)
    requires pos <= |bytes|
    ensures OldBookRead(2, lookup, bytes, pos, g, k).0.path == StringRead(bytes, pos, g.lengths(5 * k)).0
  {
    hide StringRead;
  }

  // ---------- files of version 1 ----------

  function PathBytes(paths: seq<Str>): seq<byte> {
    if paths == [] then [] else StringBytes(paths[0]) + PathBytes(paths[1..])
  }

  lemma {:induction false} PathsReadBack(lookup: Lookup, bytes: seq<byte>, pos: nat, g: Garbage, k: nat,
                                         paths: seq<Str>)
    requires HoldsAt(bytes, pos, PathBytes(paths)) && forall i :: 0 <= i < |paths| ==> |paths[i]| <= MAX_STRING
    ensures pos <= |bytes|
    ensures forall i :: 0 <= i < |paths| ==>
              var known := lookup(paths[i]);
              BooksRead(1, lookup, bytes, pos, g, k, |paths|)[i]
              == Book(paths[i], known.title, known.author, known.cover, [], 0, 0)
    decreases |paths|
  {
    hide StringRead, HoldsAt, PathBytes, BookRead;
    if paths == [] {
      EndHeld(bytes, pos, PathBytes(paths));
    } else {
      OnePath(paths);
      WrittenIsRead(bytes, pos, paths[0], PathBytes(paths[1..]), g.lengths(5 * k));
      var b := OldBookRead(1, lookup, bytes, pos, g, k);
      PathsReadBack(lookup, bytes, b.1, g, k + 1, paths[1..]);
      var rest := BooksRead(1, lookup, bytes, b.1, g, k + 1, |paths| - 1);
      assert forall i :: 0 < i < |paths| ==> paths[i] == paths[1..][i - 1] && ([b.0] + rest)[i] == rest[i - 1];
    }
  }

  lemma OnePath(paths: seq<Str>)
    requires paths != []
    ensures PathBytes(paths) == StringBytes(paths[0]) + PathBytes(paths[1..])
  {
  }

  /** A version 1 file has paths only: each book is what the device knows of its path. */
  lemma PathFileIsRead(lookup: Lookup, paths: seq<Str>, g: Garbage)
    requires |paths| < 256 && forall i :: 0 <= i < |paths| ==> |paths[i]| <= MAX_STRING
    ensures var r := ListRead(lookup, [1, |paths|] + PathBytes(paths), g);
            && r.Some? && |r.value| == |paths|
            && forall i :: 0 <= i < |paths| ==>
                 var known := lookup(paths[i]);
                 r.value[i] == Book(paths[i], known.title, known.author, known.cover, [], 0, 0)
  {
    hide BooksRead, PathBytes;
    var bytes := [1, |paths|] + PathBytes(paths);
    assert bytes[2..] == PathBytes(paths);
    PathsReadBack(lookup, bytes, 2, g, 0, paths);
  }

  /** The version 2 file of a list comes back as its books, reopened. */
  ghost predicate ComesBack(lookup: Lookup, list: seq<Book>, g: Garbage) {
    var r := ListRead(lookup, OldFile(list), g);
    r.Some? && |r.value| == |list| && forall i :: 0 <= i < |list| ==> r.value[i] == Reopened(lookup, list[i])
  }

  lemma OldListRead(lookup: Lookup, list: seq<Book>, g: Garbage)
    requires |list| < 256
    ensures HoldsAt(OldFile(list), 2, OldBytes(list))
    ensures ListRead(lookup, OldFile(list), g) == Some(BooksRead(2, lookup, OldFile(list), 2, g, 0, |list|))
  {
    hide BooksRead, OldBytes;
    assert OldFile(list)[2..] == OldBytes(list);
  }

  /** When the device knows a book, its stored title and author are not skipped.  So the
      books of given paths come back from a version 2 file, whatever titles and authors it
      gives them, exactly when the device knows none of them but perhaps the last. */
  lemma OldFileComesBackIff(lookup: Lookup, paths: seq<Str>, g: Garbage)
    requires |paths| < 256 && forall i :: 0 <= i < |paths| ==> |paths[i]| <= MAX_STRING
    ensures (forall list: seq<Book> :: PathsOf(list) == paths && AllShort(list) ==> ComesBack(lookup, list, g))
       <==> OnlyLastKnown(lookup, paths)
  {
    hide ListRead, OldFile, OldBytes, BooksRead, Reopened, Unknown, HoldsAt;
    if OnlyLastKnown(lookup, paths) {
      forall list: seq<Book> | PathsOf(list) == paths && AllShort(list) ensures ComesBack(lookup, list, g) {
        OldListRead(lookup, list, g);
        OldBooksReadBack(lookup, OldFile(list), 2, g, 0, list);
      }
    } else {
      var list := Shifted(lookup, paths, g);
    }
  }

  /** A list that does not come back: the title of the first known book is not the next path. */
  lemma Shifted(lookup: Lookup, paths: seq<Str>, g: Garbage) returns (list: seq<Book>)
    requires |paths| < 256 && (forall i :: 0 <= i < |paths| ==> |paths[i]| <= MAX_STRING)
    requires !OnlyLastKnown(lookup, paths)
    ensures PathsOf(list) == paths && AllShort(list) && !ComesBack(lookup, list, g)
  {
    hide ListRead, OldFile, OldBytes, BooksRead, HoldsAt;
    var m :| 0 <= m < |paths| - 1 && !Unknown(lookup(paths[m]));
    var i := FirstKnown(lookup, paths, m);
    var title: Str := if paths[i + 1] == [] then [84] else [];
    list := seq(|paths|, j requires 0 <= j < |paths| => Book(paths[j], if j == i then title else [], [], [], [], 0, 0));
    assert PathsOf(list) == paths;
    OldListRead(lookup, list, g);
    TitleReadAsPath(lookup, OldFile(list), 2, g, 0, list, i);
    assert Reopened(lookup, list[i + 1]).path == paths[i + 1];
  }

  lemma {:induction false} FirstKnown(lookup: Lookup, paths: seq<Str>, m: nat) returns (i: nat)
    requires m < |paths| && !Unknown(lookup(paths[m]))
    ensures i <= m && !Unknown(lookup(paths[i])) && forall j :: 0 <= j < i ==> Unknown(lookup(paths[j]))
    decreases m
  {
    hide Unknown;
    if k :| 0 <= k < m && !Unknown(lookup(paths[k])) {
      i := FirstKnown(lookup, paths, k);
    } else {
      i := m;
    }
  }

  // ---------- the store ----------

  class RecentBooksStore {
    var recentBooks: seq<Book>
    var file: Option<seq<byte>>  // recent.bin on the card
    var calls: nat               // made to the card so far
    const outcomes: SdCard.Outcomes

    constructor (outcomes: SdCard.Outcomes)
      ensures recentBooks == [] && file == None && calls == 0 && this.outcomes == outcomes
    {
      this.outcomes := outcomes;
      recentBooks, file, calls := [], None, 0;
    }

    /** The file after a save that starts with call `n`: its second call opens the file. */
    ghost function FileAfterSave(n: nat, list: seq<Book>, was: Option<seq<byte>>): Option<seq<byte>> {
      if outcomes(n + 1) > 0 then Some(Kept(outcomes, n + 2, Chunks(list))) else was
    }

    /** `addBook` */
    method AddBook(o: Opening)
      modifies this
      ensures recentBooks == Added(old(recentBooks), o)
      ensures file == FileAfterSave(old(calls), recentBooks, old(file))
    {
      hide IndexOf, Trimmed, Chunks, Kept;
      var replacement := Fresh(o);
      var i := FindPath(o.path);
      if i < |recentBooks| {
        var it := recentBooks[i];
        if |replacement.title| == 0 { replacement := replacement.(title := it.title); }
        if |replacement.author| == 0 { replacement := replacement.(author := it.author); }
        if |replacement.cover| == 0 { replacement := replacement.(cover := it.cover); }
        recentBooks := recentBooks[..i] + recentBooks[i + 1..];
      }
      recentBooks := [replacement] + recentBooks;
      assert recentBooks == MovedToFront(old(recentBooks), o);
      Trim();
      var _ := SaveToFile();
    }

    /** `std::find_if` by path; the length when there is none. */
    method FindPath(path: Str) returns (i: nat)
      ensures i == IndexOf(recentBooks, path)
    {
      i := 0;
      while i < |recentBooks| && recentBooks[i].path != path
        invariant i <= |recentBooks|
        invariant forall j :: 0 <= j < i ==> recentBooks[j].path != path
      {
        i := i + 1;
      }
    }

    method Trim()
      modifies this`recentBooks
      ensures recentBooks == Trimmed(old(recentBooks))
    {
      if |recentBooks| > MAX_RECENT_BOOKS { recentBooks := recentBooks[..MAX_RECENT_BOOKS]; }
    }

    /** One `write` to the open file. */
    method Write(chunk: seq<byte>)
      requires file.Some?
      modifies this`file, this`calls
      ensures file == Some(old(file).value + Appended(outcomes(old(calls)), chunk)) && calls == old(calls) + 1
    {
      var n := outcomes(calls);
      file := Some(file.value + (if n <= 0 then [] else if n < |chunk| then chunk[..n] else chunk));
      calls := calls + 1;
    }

    /** `writeString`; `done` is what the calls from `n` on were given so far. */
    method WriteString(s: Str, ghost n: nat, ghost done: seq<seq<byte>>)
      requires file == Some(Kept(outcomes, n, done)) && calls == n + |done|
      modifies this`file, this`calls
      ensures file == Some(Kept(outcomes, n, done + [U32(|s|), s])) && calls == n + |done| + 2
    {
      hide U32;
      Write(U32(|s|));
      Write(s);
      ghost var chunks := done + [U32(|s|), s];
      assert chunks[..|done| + 1][..|done|] == done && chunks[..|done| + 1][|done|] == U32(|s|);
    }

    method WriteBook(b: Book, ghost n: nat, ghost done: seq<seq<byte>>)
      requires file == Some(Kept(outcomes, n, done)) && calls == n + |done|
      modifies this`file, this`calls
      ensures file == Some(Kept(outcomes, n, done + BookChunks(b))) && calls == n + |done + BookChunks(b)|
    {
      hide Kept, U32;
      WriteString(b.path, n, done);
      WriteString(b.title, n, done + [U32(|b.path|), b.path]);
      WriteString(b.author, n, done + [U32(|b.path|), b.path] + [U32(|b.title|), b.title]);
      ghost var three := done + [U32(|b.path|), b.path] + [U32(|b.title|), b.title] + [U32(|b.author|), b.author];
      WriteString(b.cover, n, three);
      WriteString(b.source, n, three + [U32(|b.cover|), b.cover]);
      assert three + [U32(|b.cover|), b.cover] + [U32(|b.source|), b.source] == done + BookChunks(b);
    }

    /** `saveToFile`: only the opening of the file is checked. */
    method SaveToFile() returns (ok: bool)
      modifies this`file, this`calls
      ensures ok == (outcomes(old(calls) + 1) > 0)
      ensures file == FileAfterSave(old(calls), recentBooks, old(file))
    {
      hide BookChunks, Kept;
      calls := calls + 1;  // mkdir
      ok := outcomes(calls) > 0;
      calls := calls + 1;
      if !ok { return; }
      file := Some([]);
      ghost var n := calls;
      ghost var done: seq<seq<byte>> := [[FILE_VERSION], [|recentBooks| % 256]];
      Write([FILE_VERSION]);
      Write([|recentBooks| % 256]);
      HeaderKept(outcomes, n, done);
      var i := 0;
      assert recentBooks[0..] == recentBooks;
      while i < |recentBooks|
        invariant i <= |recentBooks|
        invariant file == Some(Kept(outcomes, n, done)) && calls == n + |done|
        invariant done + BooksChunks(recentBooks[i..]) == Chunks(recentBooks)
      {
        assert recentBooks[i..][1..] == recentBooks[i + 1..];
        assert done + (BookChunks(recentBooks[i]) + BooksChunks(recentBooks[i + 1..]))
            == (done + BookChunks(recentBooks[i])) + BooksChunks(recentBooks[i + 1..]);
        WriteBook(recentBooks[i], n, done);
        done := done + BookChunks(recentBooks[i]);
        i := i + 1;
      }
      assert done + [] == done;
    }

    lemma HeaderKept(o: SdCard.Outcomes, n: nat, header: seq<seq<byte>>)
      requires |header| == 2
      ensures Kept(o, n, header) == [] + Appended(o(n), header[0]) + Appended(o(n + 1), header[1])
    {
      assert header[..1][..0] == [];
      assert Kept(o, n, header[..1]) == [] + Appended(o(n), header[0]);
    }

    /** `loadFromFile`, when no read of the open file fails: a refused or missing file leaves
        the list, and every other file is taken for a list. */
    method LoadFromFile(lookup: Lookup, g: Garbage) returns (ok: bool)
      modifies this`recentBooks, this`calls
      ensures ok <==> file.Some? && outcomes(old(calls)) > 0 && ListRead(lookup, file.value, g).Some?
      ensures recentBooks == if ok then ListRead(lookup, file.value, g).value else old(recentBooks)
    {
      hide AnyBookRead, BooksRead;
      ok := file.Some? && outcomes(calls) > 0;
      calls := calls + 1;
      if !ok { return; }
      var bytes := file.value;
      var version, pos: nat := g.version, 0;
      if |bytes| > 0 { version, pos := bytes[0], 1; }
      if version != FILE_VERSION && version != 1 && version != 2 { return false; }
      var count := g.count;
      if |bytes| > 1 { count, pos := bytes[1], 2; }
      ReadEntries(version, lookup, bytes, pos, g, count);
    }

    method ReadEntries(version: byte, lookup: Lookup, bytes: seq<byte>, start: nat, g: Garbage, count: nat)
      requires start <= |bytes|
      modifies this`recentBooks
      ensures recentBooks == BooksRead(version, lookup, bytes, start, g, 0, count)
    {
      hide AnyBookRead, BooksRead;
      recentBooks := [];
      var i: nat, pos: nat := 0, start;
      ghost var all := BooksRead(version, lookup, bytes, start, g, 0, count);
      assert recentBooks + all == all;
      while i < count
        invariant i <= count && pos <= |bytes|
        invariant recentBooks + BooksRead(version, lookup, bytes, pos, g, i, count - i) == all
      {
        var b, next := ReadEntry(version, lookup, bytes, pos, g, i);
        OneMoreRead(recentBooks, version, lookup, bytes, pos, g, i, count - i);
        recentBooks := recentBooks + [b];
        pos := next;
        i := i + 1;
      }
      NoneToRead(recentBooks, version, lookup, bytes, pos, g, i);
    }

    /** The `readString` calls for one book. */
    method ReadEntry(version: byte, lookup: Lookup, bytes: seq<byte>, pos: nat, g: Garbage, k: nat)
      returns (b: Book, next: nat)
      requires pos <= |bytes|
      ensures (b, next) == AnyBookRead(version, lookup, bytes, pos, g, k)
    {
      hide StringRead;
      var path, p1 := ReadString(bytes, pos, g, 5 * k);
      if version == FILE_VERSION {
        var title, p2 := ReadString(bytes, p1, g, 5 * k + 1);
        var author, p3 := ReadString(bytes, p2, g, 5 * k + 2);
        var cover, p4 := ReadString(bytes, p3, g, 5 * k + 3);
        var source, p5 := ReadString(bytes, p4, g, 5 * k + 4);
        b, next := Book(path, title, author, cover, source, 0, 0), p5;
      } else {
        var known := lookup(path);
        if |known.title| == 0 && |known.author| == 0 && version == 2 {
          var title, p2 := ReadString(bytes, p1, g, 5 * k + 1);
          var author, p3 := ReadString(bytes, p2, g, 5 * k + 2);
          b, next := Book(path, title, author, [], [], 0, 0), p3;
        } else {
          b, next := Book(path, known.title, known.author, known.cover, [], 0, 0), p1;
        }
      }
    }

    /** `readString` */
    method ReadString(bytes: seq<byte>, pos: nat, g: Garbage, k: nat) returns (s: Str, next: nat)
      requires pos <= |bytes|
      ensures (s, next) == StringRead(bytes, pos, g.lengths(k))
    {
      var n: u32;
      if pos + 4 <= |bytes| { n, next := ReadU32(bytes, pos), pos + 4; } else { n, next := g.lengths(k), |bytes|; }
      if n > MAX_STRING { return [], next; }
      var have := if n <= |bytes| - next then n else |bytes| - next;
      s := bytes[next..next + have] + Zeros(n - have);
      next := next + have;
    }
  }
}
