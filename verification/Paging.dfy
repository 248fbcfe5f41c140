/** Keyset pages: ids in descending order, a cursor is the last id of the page before and
    the empty cursor, 0 here, means the first page. */
module Paging {
  import opened Names

  ghost predicate Descending(ids: seq<nat>) {
    && (forall i, j | 0 <= i < j < |ids| :: ids[i] > ids[j])
    && (forall i | 0 <= i < |ids| :: ids[i] > 0)
  }

  /** `id < cursor`, or no condition. */
  function Past(ids: seq<nat>, cursor: nat): seq<nat> {
    if ids == [] then [] else (if cursor == 0 || ids[0] < cursor then [ids[0]] else []) + Past(ids[1..], cursor)
  }

  datatype Page = Page(items: seq<nat>, next: nat)

  /** One query: `size + 1` rows tell whether there is more. */
  function PageAt(ids: seq<nat>, cursor: nat, size: nat): Page
    requires size > 0
  {
    var rows := Past(ids, cursor);
    if |rows| > size then Page(rows[..size], rows[size - 1]) else Page(rows, 0)
  }

  /** How many pages there are; an empty table has one. */
  function Pages(n: nat, size: nat): nat
    requires size > 0
  {
    if n <= size then 1 else 1 + Pages(n - size, size)
  }

  function Min(a: nat, b: nat): nat {
    if a < b then a else b
  }

  function Slice(ids: seq<nat>, size: nat, k: nat): seq<nat> {
    ids[Min(k * size, |ids|)..Min((k + 1) * size, |ids|)]
  }

  /** The cursor that leads to page `k`. */
  function CursorOf(ids: seq<nat>, size: nat, k: nat): nat
    requires size > 0 && k < Pages(|ids|, size)
  {
    PageStarts(|ids|, size, k);
    if k == 0 then 0 else ids[k * size - 1]
  }

  lemma {:induction false} PageStarts(n: nat, size: nat, k: nat)
    requires size > 0 && k < Pages(n, size)
    ensures k > 0 ==> 0 < k * size < n
    ensures k + 1 < Pages(n, size) <==> (k + 1) * size < n
  {
    if n > size && k > 0 {
      PageStarts(n - size, size, k - 1);
      assert (k - 1) * size + size == k * size;
      assert (k - 1 + 1) * size + size == (k + 1) * size;
    }
  }

  lemma {:induction false} PastAll(ids: seq<nat>, cursor: nat)
    requires cursor == 0 || forall i | 0 <= i < |ids| :: ids[i] < cursor
    ensures Past(ids, cursor) == ids
  {
    if ids != [] {
      PastAll(ids[1..], cursor);
    }
  }

  lemma {:induction false} PastSuffix(ids: seq<nat>, i: nat)
    requires Descending(ids) && i < |ids|
    ensures Past(ids, ids[i]) == ids[i + 1..]
  {
    if i == 0 {
      PastAll(ids[1..], ids[0]);
    } else {
      PastSuffix(ids[1..], i - 1);
      assert ids[1..][i..] == ids[i + 1..];
    }
  }

  /** Following the cursors goes through the pages in turn and, from the last one, back to
      the first: an empty cursor restarts. */
  lemma PageAtCursor(ids: seq<nat>, size: nat, k: nat)
    requires size > 0 && Descending(ids) && k < Pages(|ids|, size)
    ensures PageAt(ids, CursorOf(ids, size, k), size).items == Slice(ids, size, k)
    ensures PageAt(ids, CursorOf(ids, size, k), size).next
            == if k + 1 < Pages(|ids|, size) then CursorOf(ids, size, k + 1) else 0
    ensures CursorOf(ids, size, k) == 0 <==> k == 0
  {
    PageStarts(|ids|, size, k);
    RowsFrom(ids, size, k);
    NextStart(size, k);
    hide Past, Pages, Descending;
    var at, cursor := k * size, CursorOf(ids, size, k);
    PageFrom(ids, cursor, size, at);
  }

  lemma NextStart(size: nat, k: nat)
    ensures (k + 1) * size == k * size + size
  {
  }

  /** The page behind the first `at` ids. */
  lemma PageFrom(ids: seq<nat>, cursor: nat, size: nat, at: nat)
    requires size > 0 && at <= |ids| && Past(ids, cursor) == ids[at..]
    ensures PageAt(ids, cursor, size).items == ids[at..Min(at + size, |ids|)]
    ensures PageAt(ids, cursor, size).next == if at + size < |ids| then ids[at + size - 1] else 0
  {
    hide Past;
    var rows := ids[at..];
    if |rows| > size {
      assert rows[..size] == ids[at..at + size] && rows[size - 1] == ids[at + size - 1];
    } else {
      assert ids[at..|ids|] == rows;
    }
  }

  /** The rows behind page `k`'s cursor start at its place. */
  lemma RowsFrom(ids: seq<nat>, size: nat, k: nat)
    requires size > 0 && Descending(ids) && k < Pages(|ids|, size)
    ensures k * size <= |ids| && Past(ids, CursorOf(ids, size, k)) == ids[k * size..]
    ensures CursorOf(ids, size, k) == 0 <==> k == 0
  {
    PageStarts(|ids|, size, k);
    if k == 0 {
      PastAll(ids, 0);
    } else {
      PastSuffix(ids, k * size - 1);
    }
  }

  /** The pages before page `k` hold the first `k * size` ids. */
  lemma SliceExtends(ids: seq<nat>, size: nat, k: nat)
    ensures ids[..Min(k * size, |ids|)] + Slice(ids, size, k) == ids[..Min((k + 1) * size, |ids|)]
  {
    assert k * size <= (k + 1) * size;
  }

  lemma {:induction false} PagesCoverAll(n: nat, size: nat)
    requires size > 0
    ensures Pages(n, size) * size >= n
  {
    if n > size {
      PagesCoverAll(n - size, size);
      assert Pages(n, size) * size == Pages(n - size, size) * size + size;
    }
  }

  /** There are as many pages as full ones and a rest need. */
  lemma {:induction false} PagesExactly(n: nat, size: nat)
    requires size > 0
    ensures n == 0 ==> Pages(n, size) == 1
    ensures n > 0 ==> (Pages(n, size) - 1) * size < n <= Pages(n, size) * size
  {
    if n > size {
      PagesExactly(n - size, size);
      var k := Pages(n - size, size);
      assert (k - 1) * size + size == k * size && k * size + size == (k + 1) * size;
    }
  }

  /** The ids of `n` pages, each asked for with the cursor the one before it gave. */
  function FollowCursors(ids: seq<nat>, cursor: nat, size: nat, n: nat): seq<nat>
    requires size > 0
    decreases n
  {
    if n == 0 then [] else PageAt(ids, cursor, size).items + FollowCursors(ids, PageAt(ids, cursor, size).next, size, n - 1)
  }

  /** Following the cursors from the first page lists every id once, in order, in pages of
      at most `size`. */
  lemma CursorsListAll(ids: seq<nat>, size: nat)
    requires size > 0 && Descending(ids)
    ensures FollowCursors(ids, 0, size, Pages(|ids|, size)) == ids
    ensures forall cursor :: |PageAt(ids, cursor, size).items| <= size
  {
    CursorsFrom(ids, size, 0);
    assert CursorOf(ids, size, 0) == 0;
    assert ids[0..] == ids;
  }

  lemma {:induction false} CursorsFrom(ids: seq<nat>, size: nat, k: nat)
    requires size > 0 && Descending(ids) && k < Pages(|ids|, size)
    ensures k * size <= |ids| && FollowCursors(ids, CursorOf(ids, size, k), size, Pages(|ids|, size) - k) == ids[k * size..]
    decreases Pages(|ids|, size) - k
  {
    hide PageAt, CursorOf, Descending, FollowCursors, Slice, Pages;
    var n := Pages(|ids|, size);
    PageStarts(|ids|, size, k);
    NextStart(size, k);
    CursorsStep(ids, size, k);
    if k + 1 < n {
      CursorsFrom(ids, size, k + 1);
    }
    SliceThenRest(ids, size, k, k * size, k + 1 < n);
  }

  lemma CursorsStep(ids: seq<nat>, size: nat, k: nat)
    requires size > 0 && Descending(ids) && k < Pages(|ids|, size)
    ensures var n := Pages(|ids|, size);
            FollowCursors(ids, CursorOf(ids, size, k), size, n - k)
            == Slice(ids, size, k) + (if k + 1 < n then FollowCursors(ids, CursorOf(ids, size, k + 1), size, n - k - 1) else [])
  {
    hide PageAt, CursorOf, Descending, Slice, Pages;
    PageAtCursor(ids, size, k);
  }

  lemma SliceThenRest(ids: seq<nat>, size: nat, k: nat, at: nat, more: bool)
    requires at == k * size && at <= |ids| && (k + 1) * size == at + size && (more <==> at + size < |ids|)
    ensures Slice(ids, size, k) + (if more then ids[at + size..] else []) == ids[at..]
  {
  }

  /** The ids on the pages met in the first `r` of a round of `n` requests. */
  function Listed(ids: seq<nat>, size: nat, r: nat, n: nat): seq<nat> {
    ids[..Min(Min(r, n) * size, |ids|)]
  }

  lemma ListedAll(ids: seq<nat>, size: nat, r: nat)
    requires size > 0 && r >= Pages(|ids|, size)
    ensures Listed(ids, size, r, Pages(|ids|, size)) == ids
  {
    PagesCoverAll(|ids|, size);
  }

  /** One more request meets one more page, or one met before. */
  lemma ListedMore(ids: seq<nat>, size: nat, r: nat, k: nat)
    requires size > 0 && k < Pages(|ids|, size) && (r < Pages(|ids|, size) ==> k == r)
    ensures var n := Pages(|ids|, size);
            forall x :: x in Listed(ids, size, r + 1, n) <==> x in Listed(ids, size, r, n) || x in Slice(ids, size, k)
  {
    var n := Pages(|ids|, size);
    if r < n {
      SliceExtends(ids, size, r);
      assert Listed(ids, size, r + 1, n) == Listed(ids, size, r, n) + Slice(ids, size, k);
    } else {
      ListedAll(ids, size, r);
      ListedAll(ids, size, r + 1);
    }
  }

  // ----- cursors as text -----

  predicate Digit(c: char) {
    '0' <= c <= '9'
  }

  function DigitValue(c: char): nat
    requires Digit(c)
  {
    (c as int - '0' as int)
  }

  function Parse(s: string): nat
    requires forall i | 0 <= i < |s| :: Digit(s[i])
  {
    if s == "" then 0 else Parse(s[..|s| - 1]) * 10 + DigitValue(s[|s| - 1])
  }

  const UINT64_MAX: nat := 0xFFFF_FFFF_FFFF_FFFF

  /** Anything that is not a number of 64 bits reads as no cursor. */
  function DecodeKeysetId(s: string): nat {
    if s != "" && (forall i | 0 <= i < |s| :: Digit(s[i])) && Parse(s) <= UINT64_MAX then Parse(s) else 0
  }

  function EncodeKeysetId(id: nat): string {
    Decimal(id)
  }

  lemma {:induction false} ParseDecimal(n: nat)
    ensures |Decimal(n)| > 0 && (forall i | 0 <= i < |Decimal(n)| :: Digit(Decimal(n)[i])) && Parse(Decimal(n)) == n
  {
    if n >= 10 {
      ParseDecimal(n / 10);
      assert Decimal(n)[..|Decimal(n)| - 1] == Decimal(n / 10);
    } else {
      assert Decimal(n)[..0] == "";
    }
  }

  /** Cursors survive the trip to the client and back, and no id's cursor is empty. */
  lemma CursorRoundTrip(id: nat)
    requires id < 0x1_0000_0000_0000_0000
    ensures DecodeKeysetId(EncodeKeysetId(id)) == id && EncodeKeysetId(id) != ""
  {
    ParseDecimal(id);
  }

  /** Anything but a number of 64 bits reads as the first page. */
  lemma BadCursorIsFirstPage(s: string)
    requires s == "" || (exists i :: 0 <= i < |s| && !Digit(s[i])) || Parse(s) >= 0x1_0000_0000_0000_0000
    ensures DecodeKeysetId(s) == 0
  {
  }

  /** A longer number is ten times the shorter one and its last digit. */
  lemma ParseExactly(s: string, c: char)
    requires (forall i | 0 <= i < |s| :: '0' <= s[i] <= '9') && '0' <= c <= '9'
    ensures (forall i | 0 <= i < |s + [c]| :: Digit((s + [c])[i])) && Parse(s + [c]) == Parse(s) * 10 + (c as int - '0' as int)
    ensures Parse("") == 0
  {
    assert (s + [c])[..|s|] == s;
  }
}
