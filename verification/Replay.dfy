/**
 * webgui/realtime.py: MessageBuffer.get_messages_since, and a client that pages through a stream by asking
 * again with the last id it received. A stream is its retained entries, ids strictly increasing from 1; the
 * cursor 0 stands for "0-0".
 */
module Replay {

  /** What is found under `payload`: a message, nothing, or text that does not parse. */
  datatype Payload = Message(data: string) | Missing | Corrupt

  datatype Entry = Entry(id: nat, payload: Payload)

  datatype Received = Received(id: nat, data: string)

  ghost predicate Stream(log: seq<Entry>) {
    && (forall i :: 0 <= i < |log| ==> log[i].id > 0)
    && forall i, j :: 0 <= i < j < |log| ==> log[i].id < log[j].id
  }

  // --------------------------------------------------------- specification

  /** The retained entries after the cursor. */
  function After(log: seq<Entry>, last: nat): seq<Entry> {
    if log == [] then [] else if log[0].id > last then log else After(log[1..], last)
  }

  function Readable(entries: seq<Entry>): seq<Received> {
    if entries == [] then []
    else (if entries[0].payload.Message? then [Received(entries[0].id, entries[0].payload.data)] else [])
         + Readable(entries[1..])
  }

  predicate HasCorrupt(entries: seq<Entry>) { exists i :: 0 <= i < |entries| && entries[i].payload.Corrupt? }

  function FirstN(s: seq<Entry>, n: nat): seq<Entry> { if |s| <= n then s else s[..n] }

  /** One answer: the readable entries of the next `limit`, or nothing at all if one of them does not parse. */
  function MessagesSince(log: seq<Entry>, last: nat, limit: nat): seq<Received> {
    var page := FirstN(After(log, last), limit);
    if HasCorrupt(page) then [] else Readable(page)
  }

  // ------------------------------------------------------------ the program

  /** `xrange` with an exclusive lower bound and a count, then the loop over its entries. */
  method GetMessagesSince(log: seq<Entry>, last: nat, limit: nat) returns (results: seq<Received>)
    requires Stream(log)
    ensures results == MessagesSince(log, last, limit)
  {
    hide Stream, Readable;
    var from := 0;
    while from < |log| && log[from].id <= last
      invariant 0 <= from <= |log| && After(log, last) == After(log[from..], last)
    {
      from := from + 1;
    }
    assert After(log[from..], last) == log[from..];
    var entries := FirstN(log[from..], limit);
    results := [];
    ReadableNothing(entries);
    for i := 0 to |entries|
      invariant !HasCorrupt(entries[..i]) && results == Readable(entries[..i])
    {
      ReadableSnoc(entries, i);
      match entries[i].payload {
        case Corrupt => return [];
        case Missing =>
        case Message(data) => results := results + [Received(entries[i].id, data)];
      }
      assert entries[..i + 1] == entries[..i] + [entries[i]];
    }
    assert entries[..|entries|] == entries;
  }

  lemma ReadableNothing(entries: seq<Entry>)
    ensures Readable(entries[..0]) == []
  {
  }

  lemma ReadableSnoc(entries: seq<Entry>, i: nat)
    requires i < |entries|
    ensures Readable(entries[..i + 1]) == Readable(entries[..i])
              + if entries[i].payload.Message? then [Received(entries[i].id, entries[i].payload.data)] else []
  {
    assert entries[..i + 1] == entries[..i] + [entries[i]];
    ReadableAppend(entries[..i], [entries[i]]);
    assert [entries[i]][1..] == [];
  }

  // ---------------------------------------------------------------- paging

  /** What the client ends up with: pages until an answer is empty. */
  function Paged(log: seq<Entry>, last: nat, limit: nat): seq<Received>
    requires Stream(log)
    decreases |After(log, last)|
  {
    var page := MessagesSince(log, last, limit);
    if page == [] then []
    else
      PageAdvances(log, last, limit);
      page + Paged(log, page[|page| - 1].id, limit)
  }

  lemma {:induction false} AfterIsStream(log: seq<Entry>, last: nat)
    requires Stream(log)
    ensures Stream(After(log, last)) && |After(log, last)| <= |log|
    ensures forall i :: 0 <= i < |After(log, last)| ==> After(log, last)[i].id > last
  {
    if log != [] && log[0].id <= last {
      AfterIsStream(log[1..], last);
    }
  }

  /** What is kept is a suffix of the log, and what is skipped is at or before the cursor. */
  lemma {:induction false} AfterSkips(log: seq<Entry>, last: nat)
    ensures var k := |log| - |After(log, last)|;
            0 <= k && After(log, last) == log[k..] && forall i :: 0 <= i < k ==> log[i].id <= last
  {
    if log != [] && log[0].id <= last {
      AfterSkips(log[1..], last);
      assert log[1..][|log| - 1 - |After(log, last)|..] == log[|log| - |After(log, last)|..];
    }
  }

  /** Cutting a stream at one of its entries leaves what comes behind it. */
  lemma {:induction false} AfterEntry(log: seq<Entry>, i: nat)
    requires Stream(log) && i < |log|
    ensures After(log, log[i].id) == log[i + 1..]
  {
    if i == 0 {
      if |log| > 1 { assert log[1..][0] == log[1]; }
    } else {
      AfterEntry(log[1..], i - 1);
    }
  }

  /** Asking after a later entry of the rest is asking after it in the log. */
  lemma {:induction false} AfterAgain(log: seq<Entry>, last: nat, later: nat)
    requires Stream(log) && last <= later
    ensures After(log, later) == After(After(log, last), later)
  {
    if log != [] && log[0].id <= last {
      AfterAgain(log[1..], last, later);
    }
  }

  /** Every received message is an entry of the page it came in. */
  lemma {:induction false} ReadableLast(entries: seq<Entry>) returns (i: nat)
    requires Readable(entries) != []
    ensures i < |entries| && entries[i].payload.Message?
    ensures var r := Readable(entries); r[|r| - 1] == Received(entries[i].id, entries[i].payload.data)
    ensures Readable(entries[..i + 1]) == Readable(entries)
    ensures forall j :: i < j < |entries| ==> !entries[j].payload.Message?
  {
    if Readable(entries[1..]) != [] {
      i := ReadableLast(entries[1..]);
      assert entries[..i + 2][1..] == entries[1..][..i + 1];
      i := i + 1;
    } else {
      i := 0;
      assert Readable(entries[..1]) == Readable(entries) by { assert entries[..1][1..] == []; }
      NoneReadable(entries[1..]);
    }
  }

  lemma {:induction false} NoneReadable(entries: seq<Entry>)
    ensures Readable(entries) == [] <==> forall j :: 0 <= j < |entries| ==> !entries[j].payload.Message?
  {
    if entries != [] { NoneReadable(entries[1..]); }
  }

  lemma {:induction false} ReadableAppend(a: seq<Entry>, b: seq<Entry>)
    ensures Readable(a + b) == Readable(a) + Readable(b)
  {
    if a == [] {
      assert a + b == b;
    } else {
      var head := if a[0].payload.Message? then [Received(a[0].id, a[0].payload.data)] else [];
      assert (a + b)[1..] == a[1..] + b;
      ReadableAppend(a[1..], b);
      assert Readable(a + b) == head + Readable((a + b)[1..]);
      assert head + (Readable(a[1..]) + Readable(b)) == (head + Readable(a[1..])) + Readable(b);
    }
  }

  /** A page that is not empty moves the cursor forward to the last message in it. */
  lemma PageMoves(log: seq<Entry>, last: nat, limit: nat) returns (i: nat)
    requires Stream(log) && MessagesSince(log, last, limit) != []
    ensures var rest, page := After(log, last), MessagesSince(log, last, limit);
            && i < |rest| && i < limit && rest[i].payload.Message? && page[|page| - 1].id == rest[i].id
            && After(log, rest[i].id) == rest[i + 1..] && page == Readable(rest[..i + 1])
            && forall j :: i < j < |rest| && j < limit ==> !rest[j].payload.Message?
  {
    var rest := After(log, last);
    var page := FirstN(rest, limit);
    assert MessagesSince(log, last, limit) == Readable(page) != [];
    AfterIsStream(log, last);
    hide After, Readable, MessagesSince, Stream;
    i := ReadableLast(page);
    assert page[..i + 1] == rest[..i + 1];
    AfterAgain(log, last, rest[i].id);
    AfterEntry(rest, i);
    assert forall j :: 0 <= j < |page| ==> page[j] == rest[j];
  }

  lemma PageAdvances(log: seq<Entry>, last: nat, limit: nat)
    requires Stream(log) && MessagesSince(log, last, limit) != []
    ensures var page := MessagesSince(log, last, limit);
            |After(log, page[|page| - 1].id)| < |After(log, last)|
  {
    var i := PageMoves(log, last, limit);
  }

  /** Every message has one of the `limit` entries before it readable, or is among the first `limit`. */
  ghost predicate NoLongGap(rest: seq<Entry>, limit: nat) {
    forall j :: 0 <= j < |rest| && rest[j].payload.Message? ==>
      j < limit || exists i :: j - limit <= i < j && rest[i].payload.Message?
  }

  /** A corrupt entry has no message behind it, and none within `limit` places before it. */
  ghost predicate CorruptApart(rest: seq<Entry>, limit: nat) {
    forall j, c :: 0 <= j < |rest| && 0 <= c < |rest| && rest[j].payload.Message? && rest[c].payload.Corrupt? ==>
      c >= j + limit
  }

  /** No page on the way to the last message is empty or corrupt, so paging returns all of them once and in order. */
  lemma {:induction false} PagingReachesAll(log: seq<Entry>, last: nat, limit: nat)
    requires Stream(log) && NoLongGap(After(log, last), limit) && CorruptApart(After(log, last), limit)
    ensures Paged(log, last, limit) == Readable(After(log, last))
    decreases |After(log, last)|
  {
    var rest, page := After(log, last), MessagesSince(log, last, limit);
    if page == [] {
      EmptyPage(rest, limit);
      NoneReadable(rest);
    } else {
      var i := PageMoves(log, last, limit);
      PageAdvances(log, last, limit);
      assert Paged(log, last, limit) == page + Paged(log, rest[i].id, limit);
      hide After, Readable, MessagesSince, NoLongGap, CorruptApart, Stream, Paged;
      ReadableSplit(rest, i + 1);
      GapBehind(rest, i, limit);
      CorruptBehind(rest, i, limit);
      PagingReachesAll(log, rest[i].id, limit);
    }
  }

  /** When the next page comes out empty, nothing readable is left. */
  lemma EmptyPage(rest: seq<Entry>, limit: nat)
    requires NoLongGap(rest, limit) && CorruptApart(rest, limit)
    requires HasCorrupt(FirstN(rest, limit)) || Readable(FirstN(rest, limit)) == []
    ensures forall j :: 0 <= j < |rest| ==> !rest[j].payload.Message?
  {
    var page := FirstN(rest, limit);
    assert forall j :: 0 <= j < |page| ==> page[j] == rest[j];
    NoneReadable(page);
    if HasCorrupt(page) {
      var c :| 0 <= c < |page| && page[c].payload.Corrupt?;
      assert rest[c].payload.Corrupt?;
    }
    FirstGap(rest, limit, |rest|);
  }

  lemma CorruptBehind(rest: seq<Entry>, i: nat, limit: nat)
    requires i < |rest| && CorruptApart(rest, limit)
    ensures CorruptApart(rest[i + 1..], limit)
  {
  }

  /** The cursor of a client that has everything before position p. */
  function CursorAt(log: seq<Entry>, p: nat): nat
    requires p <= |log|
  {
    if p == 0 then 0 else log[p - 1].id
  }

  lemma FromCursor(log: seq<Entry>, p: nat)
    requires Stream(log) && p <= |log|
    ensures After(log, CursorAt(log, p)) == log[p..]
  {
    if p > 0 { AfterEntry(log, p - 1); }
  }

  /** A client at position p gets nothing more, although a message stands at j. */
  lemma StuckAt(log: seq<Entry>, p: nat, j: nat, limit: nat)
    requires Stream(log) && p <= j < |log| && log[j].payload.Message?
    requires HasCorrupt(FirstN(log[p..], limit)) || Readable(FirstN(log[p..], limit)) == []
    ensures Paged(log, CursorAt(log, p), limit) != Readable(After(log, CursorAt(log, p)))
  {
    FromCursor(log, p);
    NoneReadable(log[p..]);
    assert log[p..][j - p] == log[j];
  }

  lemma GapSticks(log: seq<Entry>, limit: nat)
    requires Stream(log) && !NoLongGap(log, limit)
    ensures exists last: nat :: Paged(log, last, limit) != Readable(After(log, last))
  {
    var j :| 0 <= j < |log| && log[j].payload.Message? && j >= limit
          && forall i :: j - limit <= i < j ==> !log[i].payload.Message?;
    var p := j - limit;
    var page := FirstN(log[p..], limit);
    assert forall i :: 0 <= i < |page| ==> page[i] == log[p + i];
    NoneReadable(page);
    StuckAt(log, p, j, limit);
  }

  lemma CorruptSticks(log: seq<Entry>, limit: nat)
    requires Stream(log) && limit >= 1 && !CorruptApart(log, limit)
    ensures exists last: nat :: Paged(log, last, limit) != Readable(After(log, last))
  {
    var j, c :| 0 <= j < |log| && 0 <= c < |log| && log[j].payload.Message? && log[c].payload.Corrupt? && c < j + limit;
    var p := if c < j then c else j;
    var page := FirstN(log[p..], limit);
    assert page[c - p] == log[c];
    StuckAt(log, p, j, limit);
  }

  lemma NothingToRead(rest: seq<Entry>)
    requires NoLongGap(rest, 0)
    ensures CorruptApart(rest, 0)
  {
  }

  lemma SuffixKeeps(log: seq<Entry>, k: nat, limit: nat)
    requires k <= |log| && NoLongGap(log, limit) && CorruptApart(log, limit)
    ensures NoLongGap(log[k..], limit) && CorruptApart(log[k..], limit)
  {
    var rest := log[k..];
    forall j | 0 <= j < |rest| && rest[j].payload.Message?
      ensures j < limit || exists i :: j - limit <= i < j && rest[i].payload.Message?
    {
      assert log[k + j].payload.Message?;
      if j >= limit {
        var i :| k + j - limit <= i < k + j && log[i].payload.Message?;
        assert rest[i - k].payload.Message?;
      }
    }
  }

  /**
   * Replay paging. From every cursor paging returns every readable entry after it once and in order, if and
   * only if no `limit` entries in a row without a message stand before a message, and a corrupt entry has no
   * message behind it nor fewer than `limit` places before it.
   */
  lemma PagingExactly(log: seq<Entry>, limit: nat)
    requires Stream(log)
    ensures (forall last: nat :: Paged(log, last, limit) == Readable(After(log, last)))
       <==> NoLongGap(log, limit) && CorruptApart(log, limit)
  {
    hide Stream, After, Readable, NoLongGap, CorruptApart, Paged;
    if !NoLongGap(log, limit) {
      GapSticks(log, limit);
    } else if !CorruptApart(log, limit) {
      if limit == 0 { NothingToRead(log); }
      CorruptSticks(log, limit);
    } else {
      forall last: nat ensures Paged(log, last, limit) == Readable(After(log, last)) {
        AfterSkips(log, last);
        SuffixKeeps(log, |log| - |After(log, last)|, limit);
        PagingReachesAll(log, last, limit);
      }
    }
  }

  /** With a payload that parses in every entry, as `buffer_message` writes them, nothing is missed or repeated. */
  lemma PagingComplete(log: seq<Entry>, last: nat, limit: nat)
    requires Stream(log) && limit >= 1
    requires forall i :: 0 <= i < |log| ==> log[i].payload.Message?
    ensures Paged(log, last, limit) == Readable(After(log, last))
    ensures |Readable(After(log, last))| == |After(log, last)|
    ensures forall i :: 0 <= i < |After(log, last)| ==>
              var r, e := Readable(After(log, last))[i], After(log, last)[i]; r.id == e.id && e.payload == Message(r.data)
  {
    AfterSkips(log, last);
    NoGap(After(log, last), limit);
    hide Readable, After, NoLongGap, CorruptApart;
    PagingReachesAll(log, last, limit);
    AllReadable(After(log, last));
  }

  lemma NoGap(rest: seq<Entry>, limit: nat)
    requires limit >= 1 && forall i :: 0 <= i < |rest| ==> rest[i].payload.Message?
    ensures NoLongGap(rest, limit) && CorruptApart(rest, limit)
  {
    forall j | 0 <= j < |rest| && rest[j].payload.Message?
      ensures j < limit || exists i :: j - limit <= i < j && rest[i].payload.Message?
    {
      if j >= limit { assert rest[j - 1].payload.Message?; }
    }
  }

  lemma {:induction false} AllReadable(entries: seq<Entry>)
    requires forall i :: 0 <= i < |entries| ==> entries[i].payload.Message?
    ensures |Readable(entries)| == |entries|
    ensures forall i :: 0 <= i < |entries| ==>
              Readable(entries)[i].id == entries[i].id && entries[i].payload == Message(Readable(entries)[i].data)
  {
    if entries != [] { AllReadable(entries[1..]); }
  }

  lemma ReadableSplit(rest: seq<Entry>, k: nat)
    requires k <= |rest|
    ensures Readable(rest) == Readable(rest[..k]) + Readable(rest[k..])
  {
    ReadableAppend(rest[..k], rest[k..]);
    assert rest[..k] + rest[k..] == rest;
  }

  /** Nothing readable among the first `limit` entries, and no long gap: nothing readable at all. */
  lemma {:induction false} FirstGap(rest: seq<Entry>, limit: nat, n: nat)
    requires forall j :: 0 <= j < |FirstN(rest, limit)| ==> !FirstN(rest, limit)[j].payload.Message?
    requires n <= |rest|
    ensures (forall j :: 0 <= j < |rest| ==> !rest[j].payload.Message?) ==> NoLongGap(rest, limit)
    ensures NoLongGap(rest, limit) ==> forall j :: 0 <= j < n ==> !rest[j].payload.Message?
  {
    if n > 0 {
      FirstGap(rest, limit, n - 1);
      if n - 1 < limit {
        assert FirstN(rest, limit)[n - 1] == rest[n - 1];
      }
    }
  }

  lemma GapBehind(rest: seq<Entry>, i: nat, limit: nat)
    requires i < |rest| && i < limit && rest[i].payload.Message?
    ensures NoLongGap(rest, limit) <==> NoLongGap(rest[i + 1..], limit)
  {
  }
}
