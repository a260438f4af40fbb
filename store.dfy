/** The card store: the list of uploaded files (`uploadedFiles`) and the
    flat list of cards studied (`flashcards`), kept in step by the per-file
    append of `handleFileUpload`, by `removeFile` and by `clearFiles`.
    JavaScript compares cards by reference; here every card carries an `id`
    drawn from a counter, and two cards are the same object exactly when
    they have the same id. */
module CardStore {
  import opened Csv
  import opened Shuffle

  datatype Card = Card(id: nat, question: string, answer: string)

  /** An entry of `uploadedFiles`: `{ name, cards, count }`. */
  datatype FileEntry = FileEntry(name: string, cards: seq<Card>, count: nat)

  /** The cards of all files, file after file. */
  function AllCards(files: seq<FileEntry>): seq<Card> {
    if files == [] then [] else files[0].cards + AllCards(files[1..])
  }

  function IdsOf(cs: seq<Card>): set<nat> {
    set c | c in cs :: c.id
  }

  /** The sum of the `count` fields. */
  function TotalCount(files: seq<FileEntry>): nat {
    if files == [] then 0 else files[0].count + TotalCount(files[1..])
  }

  /** New card objects for parsed rows, numbered from `base` up. */
  function Stamp(rows: seq<Row>, base: nat): (cs: seq<Card>)
    ensures |cs| == |rows|
    ensures forall i :: 0 <= i < |rows| ==> cs[i] == Card(base + i, rows[i].question, rows[i].answer)
  {
    seq(|rows|, i requires 0 <= i < |rows| => Card(base + i, rows[i].question, rows[i].answer))
  }

  /** `cards.filter(card => !cardsToRemove.includes(card))`, with identity
      read as equality of ids. */
  function Without(s: seq<Card>, ids: set<nat>): (r: seq<Card>)
    ensures forall c :: c in r <==> c in s && c.id !in ids
    ensures |r| <= |s|
  {
    if s == [] then []
    else (if s[0].id in ids then [] else [s[0]]) + Without(s[1..], ids)
  }

  /** What each file entry keeps: its count is its number of cards, it has
      at least one card, its cards are as the parser emits them and their
      ids were drawn before `nextId`. */
  predicate FileOk(f: FileEntry, nextId: nat) {
    && f.count == |f.cards|
    && f.cards != []
    && forall c :: c in f.cards ==> c.id < nextId && WellFormed(Row(c.question, c.answer))
  }

  /** The store invariant: the flashcards are, as a multiset, the cards of
      the files put together; files share no card. */
  ghost predicate Inv(files: seq<FileEntry>, flashcards: seq<Card>, nextId: nat) {
    && (forall k :: 0 <= k < |files| ==> FileOk(files[k], nextId))
    && (forall k, l :: 0 <= k < l < |files| ==> IdsOf(files[k].cards) !! IdsOf(files[l].cards))
    && multiset(flashcards) == multiset(AllCards(files))
  }

  lemma {:induction false} AllCardsAppend(a: seq<FileEntry>, b: seq<FileEntry>)
    ensures AllCards(a + b) == AllCards(a) + AllCards(b)
  {
    if a == [] {
      assert a + b == b;
    } else {
      assert (a + b)[1..] == a[1..] + b;
      AllCardsAppend(a[1..], b);
    }
  }

  /** A card belongs to the files' cards exactly when it belongs to one file. */
  lemma {:induction false} InAllCards(files: seq<FileEntry>, c: Card)
    ensures c in AllCards(files) <==> exists k :: 0 <= k < |files| && c in files[k].cards
  {
    if files != [] {
      InAllCards(files[1..], c);
      if c in AllCards(files[1..]) {
        var k :| 0 <= k < |files[1..]| && c in files[1..][k].cards;
        assert c in files[k + 1].cards;
      }
      if exists k :: 0 <= k < |files| && c in files[k].cards {
        var k :| 0 <= k < |files| && c in files[k].cards;
        if k > 0 { assert files[1..][k - 1] == files[k]; }
      }
    }
  }

  /** The total card count is the sum of the files' counts. */
  lemma {:induction false} CountIsTotal(files: seq<FileEntry>, flashcards: seq<Card>, nextId: nat)
    requires Inv(files, flashcards, nextId)
    ensures |flashcards| == TotalCount(files)
  {
    assert |multiset(flashcards)| == |multiset(AllCards(files))|;
    TotalIsLength(files, nextId);
  }

  lemma {:induction false} TotalIsLength(files: seq<FileEntry>, nextId: nat)
    requires forall k :: 0 <= k < |files| ==> FileOk(files[k], nextId)
    ensures TotalCount(files) == |AllCards(files)|
  {
    if files != [] {
      assert FileOk(files[0], nextId);
      assert forall k :: 0 <= k < |files[1..]| ==> files[1..][k] == files[k + 1];
      TotalIsLength(files[1..], nextId);
    }
  }

  /** Filtering splits over concatenation: the kept cards stay in order. */
  lemma {:induction false} WithoutAppend(a: seq<Card>, b: seq<Card>, ids: set<nat>)
    ensures Without(a + b, ids) == Without(a, ids) + Without(b, ids)
  {
    if a == [] {
      assert a + b == b;
    } else {
      assert (a + b)[0] == a[0];
      assert (a + b)[1..] == a[1..] + b;
      WithoutAppend(a[1..], b, ids);
    }
  }

  /** Filtering keeps every copy of a kept card and drops every copy of a
      removed one. */
  lemma {:induction false} WithoutCount(s: seq<Card>, ids: set<nat>, c: Card)
    ensures multiset(Without(s, ids))[c] == if c.id in ids then 0 else multiset(s)[c]
  {
    if s != [] {
      assert s == [s[0]] + s[1..];
      WithoutCount(s[1..], ids, c);
    }
  }

  /** Filtering out ids no card carries changes nothing. */
  lemma {:induction false} WithoutNone(s: seq<Card>, ids: set<nat>)
    requires forall c :: c in s ==> c.id !in ids
    ensures Without(s, ids) == s
  {
    if s != [] {
      assert s[0] in s;
      WithoutNone(s[1..], ids);
      assert s == [s[0]] + s[1..];
    }
  }

  /** Filtering out all ids of `s` leaves nothing. */
  lemma {:induction false} WithoutAll(s: seq<Card>, ids: set<nat>)
    requires forall c :: c in s ==> c.id in ids
    ensures Without(s, ids) == []
  {
    if s != [] {
      assert s[0] in s;
      WithoutAll(s[1..], ids);
    }
  }

  /** The cards made for a file carry fresh object identities: their ids
      are pairwise distinct and drawn from `base` up to `base + |rows|`,
      so none of them is a card made before. */
  lemma StampIdsFrom(rows: seq<Row>, base: nat)
    ensures var cs := Stamp(rows, base);
            forall i, j :: 0 <= i < j < |cs| ==> cs[i].id != cs[j].id
    ensures forall x :: x in IdsOf(Stamp(rows, base)) ==> base <= x < base + |rows|
  {
    var added := Stamp(rows, base);
    forall x | x in IdsOf(added) ensures base <= x < base + |rows| {
      var d :| d in added && d.id == x;
      var i :| 0 <= i < |added| && added[i] == d;
    }
  }

  /** The ids of cards that all lie below `top` lie below `top`. */
  lemma IdsBelow(cs: seq<Card>, top: nat)
    requires forall c :: c in cs ==> c.id < top
    ensures forall x :: x in IdsOf(cs) ==> x < top
  {
    forall x | x in IdsOf(cs) ensures x < top {
      var c :| c in cs && c.id == x;
    }
  }

  /** Adding a file's cards and then filtering them out by identity
      gives back the cards there were before. */
  lemma AddThenRemove(s: seq<Card>, rows: seq<Row>, base: nat)
    requires forall c :: c in s ==> c.id < base
    ensures Without(s + Stamp(rows, base), IdsOf(Stamp(rows, base))) == s
  {
    var added := Stamp(rows, base);
    var ids := IdsOf(added);
    StampIdsFrom(rows, base);
    WithoutAppend(s, added, ids);
    WithoutNone(s, ids);
    WithoutAll(added, ids);
    assert s + [] == s;
  }

  /** The file-append step keeps the invariant, and only files with cards
      are appended. */
  lemma AppendKeepsInv(files: seq<FileEntry>, flashcards: seq<Card>, nextId: nat, name: string, rows: seq<Row>)
    requires Inv(files, flashcards, nextId)
    requires rows != [] && AllWellFormed(rows)
    ensures var added := Stamp(rows, nextId);
            Inv(files + [FileEntry(name, added, |rows|)], flashcards + added, nextId + |rows|)
  {
    var added := Stamp(rows, nextId);
    var f := FileEntry(name, added, |rows|);
    var nfiles := files + [f];
    var top := nextId + |rows|;
    forall k | 0 <= k < |nfiles| ensures FileOk(nfiles[k], top) {
      if k < |files| {
        assert nfiles[k] == files[k] && FileOk(files[k], nextId);
      } else {
        forall c | c in added ensures c.id < top && WellFormed(Row(c.question, c.answer)) {
          var i :| 0 <= i < |added| && added[i] == c;
          assert WellFormed(rows[i]);
        }
      }
    }
    forall k, l | 0 <= k < l < |nfiles| ensures IdsOf(nfiles[k].cards) !! IdsOf(nfiles[l].cards) {
      if l == |files| {
        assert FileOk(files[k], nextId);
        IdsBelow(files[k].cards, nextId);
        StampIdsFrom(rows, nextId);
        assert nfiles[k] == files[k] && nfiles[l] == f;
      } else {
        assert nfiles[k] == files[k] && nfiles[l] == files[l];
      }
    }
    AllCardsAppend(files, [f]);
    assert AllCards([f]) == added + [];
  }

  /** A card with an id of file `k` is in no other file. */
  lemma RemovedIdsElsewhere(files: seq<FileEntry>, k: nat, c: Card)
    requires k < |files|
    requires forall i, j :: 0 <= i < j < |files| ==> IdsOf(files[i].cards) !! IdsOf(files[j].cards)
    requires c.id in IdsOf(files[k].cards)
    ensures c !in AllCards(files[..k] + files[k + 1..])
  {
    var rest := files[..k] + files[k + 1..];
    forall j | 0 <= j < |rest| ensures c !in rest[j].cards {
      var i := if j < k then j else j + 1;
      assert rest[j] == files[i];
      if i < k {
        assert IdsOf(files[i].cards) !! IdsOf(files[k].cards);
      } else {
        assert IdsOf(files[k].cards) !! IdsOf(files[i].cards);
      }
      assert c.id !in IdsOf(files[i].cards);
    }
    InAllCards(rest, c);
  }

  /** `removeFile(k)` keeps the invariant: the flashcards lose exactly the
      cards of file `k`. */
  lemma RemoveKeepsInv(files: seq<FileEntry>, flashcards: seq<Card>, nextId: nat, k: nat)
    requires Inv(files, flashcards, nextId) && k < |files|
    ensures Inv(files[..k] + files[k + 1..], Without(flashcards, IdsOf(files[k].cards)), nextId)
  {
    var rest := files[..k] + files[k + 1..];
    forall i | 0 <= i < |rest| ensures FileOk(rest[i], nextId) {
      if i < k { assert rest[i] == files[i]; } else { assert rest[i] == files[i + 1]; }
    }
    forall i, j | 0 <= i < j < |rest| ensures IdsOf(rest[i].cards) !! IdsOf(rest[j].cards) {
      var i', j' := if i < k then i else i + 1, if j < k then j else j + 1;
      assert rest[i] == files[i'] && rest[j] == files[j'];
    }
    RemoveKeepsCards(files, flashcards, k);
  }

  /** Filtering out the ids of file `k` leaves, as a multiset, the cards of
      the other files. */
  lemma RemoveKeepsCards(files: seq<FileEntry>, flashcards: seq<Card>, k: nat)
    requires k < |files|
    requires forall i, j :: 0 <= i < j < |files| ==> IdsOf(files[i].cards) !! IdsOf(files[j].cards)
    requires multiset(flashcards) == multiset(AllCards(files))
    ensures multiset(Without(flashcards, IdsOf(files[k].cards))) == multiset(AllCards(files[..k] + files[k + 1..]))
  {
    var ids := IdsOf(files[k].cards);
    var rest := files[..k] + files[k + 1..];
    SplitAround(files, k);
    var kept := Without(flashcards, ids);
    forall c ensures multiset(kept)[c] == multiset(AllCards(rest))[c] {
      WithoutCount(flashcards, ids, c);
      if c.id in ids {
        RemovedIdsElsewhere(files, k, c);
      } else {
        assert c !in files[k].cards;
      }
    }
    assert multiset(kept) == multiset(AllCards(rest));
  }

  /** The cards of the files, split around file `k`. */
  lemma SplitAround(files: seq<FileEntry>, k: nat)
    requires k < |files|
    ensures AllCards(files) == AllCards(files[..k]) + files[k].cards + AllCards(files[k + 1..])
    ensures AllCards(files[..k] + files[k + 1..]) == AllCards(files[..k]) + AllCards(files[k + 1..])
  {
    assert files == files[..k] + files[k..];
    AllCardsAppend(files[..k], files[k..]);
    assert files[k..][1..] == files[k + 1..];
    AllCardsAppend(files[..k], files[k + 1..]);
  }

  /** The store as the page holds it. */
  class Store {
    var flashcards: seq<Card>
    var files: seq<FileEntry>
    var nextId: nat

    ghost predicate Valid()
      reads this
    {
      Inv(files, flashcards, nextId)
    }

    /** The empty store of a freshly loaded page. */
    constructor ()
      ensures Valid() && flashcards == [] && files == []
    {
      flashcards, files, nextId := [], [], 0;
    }

    /** The `reader.onload` step for one file: parse its text and, when it
        gives at least one card, append a file entry and its cards. */
    method AddFile(name: string, content: string)
      requires Valid()
      modifies this
      ensures Valid()
      ensures var rows := Parse(content);
              if rows == [] then
                flashcards == old(flashcards) && files == old(files) && nextId == old(nextId)
              else
                var added := Stamp(rows, old(nextId));
                && files == old(files) + [FileEntry(name, added, |rows|)]
                && flashcards == old(flashcards) + added
                && nextId == old(nextId) + |rows|
    {
      var rows := Parse(content);
      if rows != [] {
        AddRows(name, rows);
      }
    }

    /** Appending the entry of a file that gave cards, and its cards. */
    method AddRows(name: string, rows: seq<Row>)
      requires Valid() && rows != [] && AllWellFormed(rows)
      modifies this
      ensures Valid()
      ensures var added := Stamp(rows, old(nextId));
              && files == old(files) + [FileEntry(name, added, |rows|)]
              && flashcards == old(flashcards) + added
              && nextId == old(nextId) + |rows|
    {
      AppendKeepsInv(files, flashcards, nextId, name, rows);
      var added := Stamp(rows, nextId);
      files, flashcards, nextId := files + [FileEntry(name, added, |rows|)], flashcards + added, nextId + |rows|;
    }

    /** `removeFile(index)`: drop the file's cards, by identity, and the file. */
    method RemoveFile(index: nat)
      requires Valid() && index < |files|
      modifies this
      ensures Valid()
      ensures flashcards == Without(old(flashcards), IdsOf(old(files)[index].cards))
      ensures files == old(files)[..index] + old(files)[index + 1..]
      ensures nextId == old(nextId)
    {
      RemoveKeepsInv(files, flashcards, nextId, index);
      flashcards := Without(flashcards, IdsOf(files[index].cards));
      files := files[..index] + files[index + 1..];
    }

    /** `clearFiles()`, and the store part of `goToUpload()`. */
    method Clear()
      requires Valid()
      modifies this
      ensures Valid() && flashcards == [] && files == [] && nextId == old(nextId)
    {
      flashcards, files := [], [];
    }

    /** `shuffleArray(flashcards)`: the cards are copied to an array,
        shuffled in place and written back. */
    method ShuffleCards(js: seq<nat>)
      requires Valid() && Choices(js, |flashcards|)
      modifies this
      ensures Valid()
      ensures flashcards == Shuffled(old(flashcards), js)
      ensures files == old(files) && nextId == old(nextId)
    {
      var a := new Card[|flashcards|](i requires 0 <= i < |flashcards| reads this => flashcards[i]);
      assert a[..] == flashcards;
      ShuffleArray(a, js);
      ShufflePermutes(flashcards, js);
      flashcards := a[..];
    }
  }
}
