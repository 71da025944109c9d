/** Finding the duration of an Opus stream by scanning its Ogg pages (page format: section 6 of RFC 3533). */
module OggScanner {

  import opened Sequences

  const HEADER_SIZE := 27
  const TWO_63 := 0x8000_0000_0000_0000
  const TWO_64 := 0x1_0000_0000_0000_0000
  const CAPTURE: seq<byte> := [0x4F, 0x67, 0x67, 0x53]

  // ----- Little-endian numbers -----

  function FromLittleEndian(bytes: seq<byte>): nat {
    if bytes == [] then 0 else bytes[0] + 256 * FromLittleEndian(bytes[1..])
  }

  function ToLittleEndian(n: nat, size: nat): (r: seq<byte>)
    ensures |r| == size
  {
    if size == 0 then [] else [n % 256] + ToLittleEndian(n / 256, size - 1)
  }

  function Power256(size: nat): nat {
    if size == 0 then 1 else 256 * Power256(size - 1)
  }

  lemma {:induction false} LittleEndianRoundTrip(n: nat, size: nat)
    requires n < Power256(size)
    ensures FromLittleEndian(ToLittleEndian(n, size)) == n
  {
    if size > 0 {
      LittleEndianRoundTrip(n / 256, size - 1);
      assert ToLittleEndian(n, size)[1..] == ToLittleEndian(n / 256, size - 1);
    }
  }

  /** A 64-bit word read as a signed number, and back. */
  function Signed(word: nat): int {
    if word < TWO_63 then word else word - TWO_64
  }

  function Word(n: int): nat
    requires -TWO_63 <= n < TWO_63
  {
    if n < 0 then n + TWO_64 else n
  }

  // ----- The scan, on the bytes that are left -----

  function Total(bytes: seq<byte>): nat {
    if bytes == [] then 0 else bytes[0] + Total(bytes[1..])
  }

  /** The capture pattern "OggS". */
  predicate Captures(bytes: seq<byte>)
    requires |bytes| >= 4
  {
    bytes[0] == 0x4F && bytes[1] == 0x67 && bytes[2] == 0x67 && bytes[3] == 0x53
  }

  predicate StartsPage(rest: seq<byte>) {
    |rest| >= HEADER_SIZE && Captures(rest)
  }

  function Granule(rest: seq<byte>): int
    requires |rest| >= HEADER_SIZE
  {
    Signed(FromLittleEndian(rest[6..14]))
  }

  /** Header and segment table, which may be longer than what is left. */
  function TableEnd(rest: seq<byte>): nat
    requires |rest| >= HEADER_SIZE
  {
    HEADER_SIZE + rest[26]
  }

  function PageSize(rest: seq<byte>): nat
    requires |rest| >= HEADER_SIZE && TableEnd(rest) <= |rest|
  {
    TableEnd(rest) + Total(rest[HEADER_SIZE..TableEnd(rest)])
  }

  /** What is left after seeking n bytes ahead, possibly past the end. */
  function From(data: seq<byte>, n: nat): seq<byte> {
    if n <= |data| then data[n..] else []
  }

  /** The positions at which the scan recognises a page; `at` is the position of `rest`. */
  function Visits(rest: seq<byte>, at: nat): seq<nat>
    decreases |rest|
  {
    if |rest| < HEADER_SIZE then []
    else if !StartsPage(rest) then Visits(rest[1..], at + 1)
    else if TableEnd(rest) > |rest| then [at]
    else [at] + Visits(From(rest, PageSize(rest)), at + PageSize(rest))
  }

  function Max(a: int, b: int): int {
    if a > b then a else b
  }

  /** The highest granule position the scan meets, starting from `best`. */
  function Highest(rest: seq<byte>, best: int): int
    decreases |rest|
  {
    if |rest| < HEADER_SIZE then best
    else if !StartsPage(rest) then Highest(rest[1..], best)
    else if TableEnd(rest) > |rest| then Max(Granule(rest), best)
    else Highest(From(rest, PageSize(rest)), Max(Granule(rest), best))
  }

  lemma HeaderSlices(data: seq<byte>, pos: nat)
    requires pos + HEADER_SIZE <= |data|
    ensures
      var header, rest := data[pos..pos + HEADER_SIZE], data[pos..];
      Captures(header) == Captures(rest) && header[6..14] == rest[6..14] && header[26] == rest[26]
  {
    var header, rest := data[pos..pos + HEADER_SIZE], data[pos..];
    assert header == rest[..HEADER_SIZE];
  }

  /** Where one round of the scan leaves off: at the end, or at a later position with a new highest value. */
  datatype Round = Stop(best: int) | Go(pos: nat, best: int)

  function NextRound(data: seq<byte>, pos: nat, best: int): (r: Round)
    ensures r.Go? ==> pos < r.pos && pos + HEADER_SIZE <= |data|
  {
    if pos + HEADER_SIZE > |data| then Stop(best)
    else
      var header := data[pos..pos + HEADER_SIZE];
      if !Captures(header) then Go(pos + 1, best)
      else
        var best', table := Max(Signed(FromLittleEndian(header[6..14])), best), pos + HEADER_SIZE + header[26];
        if table > |data| then Stop(best') else Go(table + Total(data[pos + HEADER_SIZE..table]), best')
  }

  /** The same round, in terms of the bytes that are left. */
  function Visit(rest: seq<byte>, best: int): Round {
    if |rest| < HEADER_SIZE then Stop(best)
    else if !StartsPage(rest) then Go(1, best)
    else if TableEnd(rest) > |rest| then Stop(Max(Granule(rest), best))
    else Go(PageSize(rest), Max(Granule(rest), best))
  }

  lemma HighestNext(rest: seq<byte>, best: int)
    ensures Highest(rest, best) ==
      match Visit(rest, best)
      case Stop(best') => best'
      case Go(size, best') => Highest(From(rest, size), best')
  {
  }

  lemma RoundIsVisit(data: seq<byte>, pos: nat, best: int)
    ensures NextRound(data, pos, best) ==
      match Visit(From(data, pos), best)
      case Stop(best') => Stop(best')
      case Go(size, best') => Go(pos + size, best')
  {
    if pos + HEADER_SIZE <= |data| {
      HeaderSlices(data, pos);
      var rest := data[pos..];
      if TableEnd(rest) <= |rest| {
        assert data[pos + HEADER_SIZE..pos + TableEnd(rest)] == rest[HEADER_SIZE..TableEnd(rest)];
      }
    }
  }

  lemma FromFrom(data: seq<byte>, pos: nat, n: nat)
    ensures From(From(data, pos), n) == From(data, pos + n)
  {
  }

  lemma RoundStops(data: seq<byte>, pos: nat, best: int)
    requires NextRound(data, pos, best).Stop?
    ensures Highest(From(data, pos), best) == NextRound(data, pos, best).best
  {
    RoundIsVisit(data, pos, best);
    HighestNext(From(data, pos), best);
  }

  lemma RoundGoes(data: seq<byte>, pos: nat, best: int)
    requires NextRound(data, pos, best).Go?
    ensures
      var next := NextRound(data, pos, best);
      Highest(From(data, pos), best) == Highest(From(data, next.pos), next.best)
  {
    var rest := From(data, pos);
    var visit := Visit(rest, best);
    assert NextRound(data, pos, best) == Go(pos + visit.pos, visit.best) by {
      RoundIsVisit(data, pos, best);
    }
    assert Highest(rest, best) == Highest(From(rest, visit.pos), visit.best) by {
      HighestNext(rest, best);
    }
    FromFrom(data, pos, visit.pos);
  }

  /** The scan by position, as the loop makes it. */
  function HighestAt(data: seq<byte>, pos: nat, best: int): int
    decreases |data| - pos
  {
    match NextRound(data, pos, best)
    case Stop(best') => best'
    case Go(next, best') => HighestAt(data, next, best')
  }

  lemma {:induction false} HighestAtIsHighest(data: seq<byte>, pos: nat, best: int)
    ensures HighestAt(data, pos, best) == Highest(From(data, pos), best)
    decreases |data| - pos
  {
    var next := NextRound(data, pos, best);
    if next.Go? {
      RoundGoes(data, pos, best);
      HighestAtIsHighest(data, next.pos, next.best);
    } else {
      RoundStops(data, pos, best);
    }
  }

  /** Whether a round at this position recognises a page. */
  predicate PageAt(data: seq<byte>, pos: nat) {
    pos + HEADER_SIZE <= |data| && Captures(data[pos..pos + HEADER_SIZE])
  }

  /** The positions at which the loop recognises a page, from `pos` on. */
  function VisitsAt(data: seq<byte>, pos: nat, best: int): seq<nat>
    decreases |data| - pos
  {
    (if PageAt(data, pos) then [pos] else [])
    + match NextRound(data, pos, best)
      case Stop(_) => []
      case Go(next, best') => VisitsAt(data, next, best')
  }

  lemma VisitsNext(rest: seq<byte>, at: nat, best: int)
    ensures Visits(rest, at) ==
      (if StartsPage(rest) then [at] else [])
      + match Visit(rest, best)
        case Stop(_) => []
        case Go(size, _) => Visits(From(rest, size), at + size)
  {
  }

  lemma VisitsRound(data: seq<byte>, pos: nat, best: int)
    ensures Visits(From(data, pos), pos) ==
      (if PageAt(data, pos) then [pos] else [])
      + match NextRound(data, pos, best)
        case Stop(_) => []
        case Go(next, _) => Visits(From(data, next), next)
  {
    VisitsNext(From(data, pos), pos, best);
    RoundIsVisit(data, pos, best);
    var visit := Visit(From(data, pos), best);
    if visit.Go? {
      FromFrom(data, pos, visit.pos);
    }
    if pos + HEADER_SIZE <= |data| {
      HeaderSlices(data, pos);
    }
  }

  lemma {:induction false} VisitsAtIsVisits(data: seq<byte>, pos: nat, best: int)
    ensures VisitsAt(data, pos, best) == Visits(From(data, pos), pos)
    decreases |data| - pos
  {
    VisitsRound(data, pos, best);
    var next := NextRound(data, pos, best);
    if next.Go? {
      VisitsAtIsVisits(data, next.pos, next.best);
    }
  }

  /** The highest granule position of the data, and the positions of the pages it was read from. */
  method OpusGranules(data: seq<byte>) returns (totalGranulePos: int, ghost pages: seq<nat>)
    ensures totalGranulePos == Highest(data, 0) && pages == Visits(data, 0)
  {
    HighestAtIsHighest(data, 0, 0);
    VisitsAtIsVisits(data, 0, 0);
    assert From(data, 0) == data;
    totalGranulePos, pages := Scan(data);
  }

  /** Scanning on from here gives this highest value and adds these pages. */
  ghost predicate Leads(data: seq<byte>, pos: nat, best: int, highest: int, pages: seq<nat>) {
    HighestAt(data, pos, best) == highest && VisitsAt(data, pos, best) == pages
  }

  lemma LeadsNext(data: seq<byte>, pos: nat, best: int, highest: int, pages: seq<nat>) returns (later: seq<nat>)
    requires Leads(data, pos, best, highest, pages)
    ensures pages == (if PageAt(data, pos) then [pos] else []) + later
    ensures
      match NextRound(data, pos, best)
      case Stop(best') => best' == highest && later == []
      case Go(next, best') => Leads(data, next, best', highest, later)
  {
    later := match NextRound(data, pos, best)
      case Stop(_) => []
      case Go(next, best') => VisitsAt(data, next, best');
  }

  method Scan(data: seq<byte>) returns (totalGranulePos: int, ghost pages: seq<nat>)
    ensures totalGranulePos == HighestAt(data, 0, 0) && pages == VisitsAt(data, 0, 0)
  {
    ghost var highest, later := HighestAt(data, 0, 0), VisitsAt(data, 0, 0);
    totalGranulePos, pages := ScanTo(data, highest, later);
  }

  /** The loop, against the values it leads to. */
  method ScanTo(data: seq<byte>, ghost highest: int, ghost all: seq<nat>)
    returns (totalGranulePos: int, ghost pages: seq<nat>)
    requires Leads(data, 0, 0, highest, all)
    ensures totalGranulePos == highest && pages == all
  {
    var pos: nat := 0;
    ghost var later := all;
    totalGranulePos, pages := 0, [];
    while true
      invariant Leads(data, pos, totalGranulePos, highest, later) && pages + later == all
      decreases |data| - pos
    {
      later := LeadsNext(data, pos, totalGranulePos, highest, later);
      if PageAt(data, pos) {
        pages := pages + [pos];
      }
      var more;
      more, pos, totalGranulePos := ReadPage(data, pos, totalGranulePos);
      if !more {
        break;
      }
    }
  }

  /** One round of the loop: read a header, step back to the next byte unless it is one, and seek past the page. */
  method ReadPage(data: seq<byte>, start: nat, best: int) returns (more: bool, pos: nat, totalGranulePos: int)
    ensures NextRound(data, start, best) == if more then Go(pos, totalGranulePos) else Stop(totalGranulePos)
  {
    pos, totalGranulePos := start, best;
    if pos + HEADER_SIZE > |data| {
      return false, pos, totalGranulePos;
    }
    var header := data[pos..pos + HEADER_SIZE];
    pos := pos + HEADER_SIZE;
    if !Captures(header) {
      pos := pos - 26;
      return true, pos, totalGranulePos;
    }
    totalGranulePos := Max(Signed(FromLittleEndian(header[6..14])), totalGranulePos);
    var numSegments := header[26];
    if pos + numSegments > |data| {
      return false, pos, totalGranulePos;
    }
    var segmentTable := data[pos..pos + numSegments];
    pos := pos + numSegments;
    var pageSize := SumOf(segmentTable);
    pos := pos + pageSize;
    return true, pos, totalGranulePos;
  }

  method SumOf(bytes: seq<byte>) returns (sum: nat)
    ensures sum == Total(bytes)
  {
    sum := 0;
    for i := 0 to |bytes|
      invariant sum + Total(bytes[i..]) == Total(bytes)
    {
      sum := sum + bytes[i];
    }
  }

  // ----- Well-formed pages and streams -----

  datatype Page = Page(version: byte, kind: byte, granule: int, serial: seq<byte>, sequence: seq<byte>,
                       checksum: seq<byte>, segments: seq<byte>, body: seq<byte>)

  ghost predicate WellFormed(p: Page) {
    && -TWO_63 <= p.granule < TWO_63
    && |p.serial| == 4 && |p.sequence| == 4 && |p.checksum| == 4
    && |p.segments| < 256 && |p.body| == Total(p.segments)
  }

  function Flatten(parts: seq<seq<byte>>): seq<byte> {
    if parts == [] then [] else parts[0] + Flatten(parts[1..])
  }

  function Header(p: Page): seq<byte>
    requires WellFormed(p)
  {
    Flatten([CAPTURE + [p.version, p.kind], ToLittleEndian(Word(p.granule), 8),
             p.serial + p.sequence + p.checksum + [|p.segments|]])
  }

  function Encode(p: Page): seq<byte>
    requires WellFormed(p)
  {
    Flatten([Header(p), p.segments, p.body])
  }

  function Size(p: Page): nat {
    HEADER_SIZE + |p.segments| + |p.body|
  }

  /** A page, after some bytes that belong to none. */
  datatype Item = Item(junk: seq<byte>, page: Page)

  ghost predicate WellFormedItems(items: seq<Item>) {
    forall i | 0 <= i < |items| :: WellFormed(items[i].page)
  }

  function Stream(items: seq<Item>, tail: seq<byte>): seq<byte>
    requires WellFormedItems(items)
  {
    if items == [] then tail
    else items[0].junk + (Encode(items[0].page) + Stream(items[1..], tail))
  }

  /** No page starts within the first `size` bytes. */
  ghost predicate Silent(rest: seq<byte>, size: nat)
    requires size <= |rest|
  {
    size == 0 || (!StartsPage(rest) && Silent(rest[1..], size - 1))
  }

  /** A page starts here and does not end before the bytes do. */
  ghost predicate Unfinished(rest: seq<byte>) {
    StartsPage(rest) && (TableEnd(rest) > |rest| || PageSize(rest) >= |rest|)
  }

  /** No page starts in the bytes between the pages or after the last one, except one that the stream breaks off. */
  ghost predicate Separated(items: seq<Item>, tail: seq<byte>, cut: bool)
    requires WellFormedItems(items)
  {
    if items == [] then if cut then Unfinished(tail) else Silent(tail, |tail|)
    else Silent(Stream(items, tail), |items[0].junk|) && Separated(items[1..], tail, cut)
  }

  /** Where the pages start, and the one broken off if there is one. */
  function Starts(items: seq<Item>, at: nat, cut: bool): seq<nat> {
    if items == [] then if cut then [at] else []
    else
      var start := at + |items[0].junk|;
      [start] + Starts(items[1..], start + Size(items[0].page), cut)
  }

  // ----- What the scan sees of a page -----

  lemma FlattenThree(a: seq<byte>, b: seq<byte>, c: seq<byte>)
    ensures Flatten([a, b, c]) == a + (b + c)
  {
    assert [a, b, c][1..] == [b, c] && [b, c][1..] == [c] && [c][1..] == [];
    assert Flatten([c]) == c;
    assert Flatten([b, c]) == b + c;
  }

  lemma HeaderLayout(p: Page)
    requires WellFormed(p)
    ensures
      var h := Header(p);
      && |h| == HEADER_SIZE && Captures(h) && h[26] == |p.segments|
      && h[6..14] == ToLittleEndian(Word(p.granule), 8)
  {
    FlattenThree(CAPTURE + [p.version, p.kind], ToLittleEndian(Word(p.granule), 8),
                 p.serial + p.sequence + p.checksum + [|p.segments|]);
  }

  lemma GranuleRoundTrip(n: int)
    requires -TWO_63 <= n < TWO_63
    ensures Signed(FromLittleEndian(ToLittleEndian(Word(n), 8))) == n
  {
    assert Power256(8) == TWO_64 by {
      assert Power256(4) == 0x1_0000_0000;
    }
    LittleEndianRoundTrip(Word(n), 8);
  }

  /** The scan reads `granule` at the start of `rest` and finds the page's end at `size`. */
  ghost predicate Reads(rest: seq<byte>, granule: int, size: nat) {
    && StartsPage(rest) && Granule(rest) == granule
    && TableEnd(rest) <= |rest| && PageSize(rest) == size <= |rest|
  }

  lemma HeaderReads(h: seq<byte>, p: Page, more: seq<byte>)
    requires |h| == HEADER_SIZE && Captures(h) && h[26] == |p.segments|
    requires Signed(FromLittleEndian(h[6..14])) == p.granule && |p.body| == Total(p.segments)
    ensures Reads(h + (p.segments + (p.body + more)), p.granule, Size(p))
  {
    var rest := h + (p.segments + (p.body + more));
    assert rest[6..14] == h[6..14];
    assert rest[HEADER_SIZE..TableEnd(rest)] == p.segments;
  }

  lemma DropThree(a: seq<byte>, b: seq<byte>, c: seq<byte>, more: seq<byte>)
    ensures (a + (b + c)) + more == a + (b + (c + more))
    ensures From(a + (b + (c + more)), |a| + |b| + |c|) == more
  {
  }

  lemma EncodedPage(p: Page, more: seq<byte>)
    requires WellFormed(p)
    ensures Reads(Encode(p) + more, p.granule, Size(p))
    ensures From(Encode(p) + more, Size(p)) == more
  {
    var h := Header(p);
    HeaderLayout(p);
    FlattenThree(h, p.segments, p.body);
    DropThree(h, p.segments, p.body, more);
    GranuleRoundTrip(p.granule);
    HeaderReads(h, p, more);
  }

  /** The scan steps over a page to what follows it ... */
  lemma VisitPage(rest: seq<byte>, granule: int, size: nat, at: nat)
    requires Reads(rest, granule, size)
    ensures Visits(rest, at) == [at] + Visits(From(rest, size), at + size)
  {
  }

  lemma ScanPage(rest: seq<byte>, granule: int, size: nat, best: int)
    requires Reads(rest, granule, size)
    ensures Highest(rest, best) == Highest(From(rest, size), Max(granule, best))
  {
  }

  /** ... and over silent bytes, one at a time. */
  lemma {:induction false} ScanJunk(junk: seq<byte>, more: seq<byte>, at: nat, best: int)
    requires Silent(junk + more, |junk|)
    ensures Visits(junk + more, at) == Visits(more, at + |junk|)
    ensures Highest(junk + more, best) == Highest(more, best)
  {
    var rest := junk + more;
    if junk == [] {
      assert rest == more;
    } else {
      assert rest[1..] == junk[1..] + more;
      ScanJunk(junk[1..], more, at + 1, best);
      if |rest| < HEADER_SIZE {
        ShortScan(rest, more, best);
      }
    }
  }

  lemma ShortScan(rest: seq<byte>, more: seq<byte>, best: int)
    requires |more| <= |rest| < HEADER_SIZE
    ensures forall at :: Visits(rest, at) == [] && Visits(more, at) == []
    ensures Highest(rest, best) == best && Highest(more, best) == best
  {
  }

  function HighestGranule(items: seq<Item>, best: int): int {
    if items == [] then best else HighestGranule(items[1..], Max(items[0].page.granule, best))
  }

  /** The scan recognises exactly the pages ... */
  lemma {:induction false} ScanItems(items: seq<Item>, tail: seq<byte>, cut: bool, at: nat)
    requires WellFormedItems(items) && Separated(items, tail, cut)
    ensures Visits(Stream(items, tail), at) == Starts(items, at, cut)
  {
    if items == [] {
      ScanTail(tail, cut, at, 0);
    } else {
      var item, later := items[0], items[1..];
      var next := at + |item.junk| + Size(item.page);
      ScanItems(later, tail, cut, next);
      VisitItem(item, Stream(later, tail), at, Starts(later, next, cut));
    }
  }

  /** ... and takes their granule positions along to the tail. */
  lemma {:induction false} ScanGranules(items: seq<Item>, tail: seq<byte>, cut: bool, best: int)
    requires WellFormedItems(items) && Separated(items, tail, cut)
    ensures Highest(Stream(items, tail), best) == Highest(tail, HighestGranule(items, best))
  {
    if items != [] {
      ScanItem(items[0], Stream(items[1..], tail), best);
      ScanGranules(items[1..], tail, cut, Max(items[0].page.granule, best));
    }
  }

  lemma {:induction false} LastTail(items: seq<Item>, tail: seq<byte>, cut: bool)
    requires WellFormedItems(items) && Separated(items, tail, cut)
    ensures Separated([], tail, cut)
  {
    if items != [] {
      LastTail(items[1..], tail, cut);
    }
  }

  lemma ScanTail(tail: seq<byte>, cut: bool, at: nat, best: int)
    requires if cut then Unfinished(tail) else Silent(tail, |tail|)
    ensures Visits(tail, at) == if cut then [at] else []
    ensures Highest(tail, best) == if cut then Max(Granule(tail), best) else best
  {
    if !cut {
      assert tail + [] == tail;
      ScanJunk(tail, [], at, best);
    }
  }

  lemma VisitItem(item: Item, more: seq<byte>, at: nat, starts: seq<nat>)
    requires WellFormed(item.page) && Silent(item.junk + (Encode(item.page) + more), |item.junk|)
    requires Visits(more, at + |item.junk| + Size(item.page)) == starts
    ensures Visits(item.junk + (Encode(item.page) + more), at) == [at + |item.junk|] + starts
  {
    var rest, start := Encode(item.page) + more, at + |item.junk|;
    assert Visits(rest, start) == [start] + starts by {
      EncodedPage(item.page, more);
      VisitPage(rest, item.page.granule, Size(item.page), start);
    }
    assert Visits(item.junk + rest, at) == Visits(rest, start) by {
      ScanJunk(item.junk, rest, at, 0);
    }
  }

  lemma ScanItem(item: Item, more: seq<byte>, best: int)
    requires WellFormed(item.page) && Silent(item.junk + (Encode(item.page) + more), |item.junk|)
    ensures Highest(item.junk + (Encode(item.page) + more), best) == Highest(more, Max(item.page.granule, best))
  {
    var rest := Encode(item.page) + more;
    ScanJunk(item.junk, rest, 0, best);
    EncodedPage(item.page, more);
    ScanPage(rest, item.page.granule, Size(item.page), best);
  }

  ghost predicate IsMaximum(m: int, best: int, items: seq<Item>) {
    && m >= best && (forall i | 0 <= i < |items| :: items[i].page.granule <= m)
    && (m == best || exists i :: 0 <= i < |items| && items[i].page.granule == m)
  }

  lemma {:induction false} HighestGranuleIsMaximum(items: seq<Item>, best: int)
    ensures IsMaximum(HighestGranule(items, best), best, items)
  {
    if items != [] {
      var best' := Max(items[0].page.granule, best);
      HighestGranuleIsMaximum(items[1..], best');
      var m := HighestGranule(items, best);
      forall i | 0 <= i < |items| ensures items[i].page.granule <= m {
        assert i > 0 ==> items[i] == items[1..][i - 1];
      }
      if m != best' {
        var i :| 0 <= i < |items[1..]| && items[1..][i].page.granule == m;
        assert items[i + 1].page.granule == m;
      } else if m != best {
        assert items[0].page.granule == m;
      }
    }
  }

  /** On every stream of well-formed pages, with silent bytes between and after them, the scan recognises exactly
      the page starts, and its result is the maximum of zero and the signed granule positions. */
  lemma ScanOfStream(items: seq<Item>, tail: seq<byte>)
    requires WellFormedItems(items) && Separated(items, tail, false)
    ensures Visits(Stream(items, tail), 0) == Starts(items, 0, false)
    ensures IsMaximum(Highest(Stream(items, tail), 0), 0, items)
  {
    ScanItems(items, tail, false, 0);
    ScanGranules(items, tail, false, 0);
    LastTail(items, tail, false);
    ScanTail(tail, false, 0, HighestGranule(items, 0));
    HighestGranuleIsMaximum(items, 0);
  }

  /** What is left of a page cut short is silent exactly if its header is not whole; otherwise its granule position is
      read from it. */
  lemma CutPage(p: Page, n: nat)
    requires WellFormed(p) && n < Size(p)
    ensures n < |Encode(p)|
    ensures
      var rest := Encode(p)[..n];
      if n >= 27 then Unfinished(rest) && Granule(rest) == p.granule else Silent(rest, n)
  {
    var whole := Encode(p);
    assert whole + [] == whole;
    EncodedPage(p, []);
    var rest := whole[..n];
    if n >= HEADER_SIZE {
      assert rest[6..14] == whole[6..14];
      if TableEnd(rest) <= n {
        assert rest[HEADER_SIZE..TableEnd(rest)] == whole[HEADER_SIZE..TableEnd(whole)];
      }
    } else {
      ShortSilent(rest);
    }
  }

  lemma {:induction false} ShortSilent(rest: seq<byte>)
    requires |rest| < HEADER_SIZE
    ensures Silent(rest, |rest|)
  {
    if rest != [] {
      ShortSilent(rest[1..]);
    }
  }

  /** A stream that breaks off within a page is scanned as its whole pages, and the last one too if its header is. */
  lemma CutStream(items: seq<Item>, last: Page, n: nat)
    requires WellFormedItems(items) && WellFormed(last) && n < Size(last)
    requires n <= |Encode(last)| && Separated(items, Encode(last)[..n], n >= 27)
    ensures
      var data, seen := Stream(items, Encode(last)[..n]), if n >= 27 then [Item([], last)] else [];
      Visits(data, 0) == Starts(items, 0, n >= 27) && IsMaximum(Highest(data, 0), 0, items + seen)
  {
    var tail, seen := Encode(last)[..n], if n >= 27 then [Item([], last)] else [];
    CutPage(last, n);
    ScanItems(items, tail, n >= 27, 0);
    ScanGranules(items, tail, n >= 27, 0);
    ScanTail(tail, n >= 27, 0, HighestGranule(items, 0));
    HighestGranuleIsMaximum(items, 0);
    MaximumWith(HighestGranule(items, 0), items, seen, Highest(Stream(items, tail), 0));
  }

  lemma MaximumWith(m: int, items: seq<Item>, seen: seq<Item>, m': int)
    requires IsMaximum(m, 0, items) && |seen| <= 1
    requires m' == if seen != [] && seen[0].page.granule > m then seen[0].page.granule else m
    ensures IsMaximum(m', 0, items + seen)
  {
    var all := items + seen;
    if seen != [] {
      assert all[|items|] == seen[0];
    }
    if m' == m && m != 0 {
      var i :| 0 <= i < |items| && items[i].page.granule == m;
      assert all[i].page.granule == m;
    }
  }

  /** The duration in seconds of such a stream, at the 48 kHz of Opus. */
  method OpusDuration(data: seq<byte>) returns (duration: real, ghost pages: seq<nat>)
    ensures forall items, tail |
      WellFormedItems(items) && Separated(items, tail, false) && data == Stream(items, tail) ::
      pages == Starts(items, 0, false) && exists m :: IsMaximum(m, 0, items) && duration == m as real / 48000.0
  {
    var total;
    total, pages := OpusGranules(data);
    duration := total as real / 48000.0;
    forall items, tail | WellFormedItems(items) && Separated(items, tail, false) && data == Stream(items, tail)
      ensures pages == Starts(items, 0, false) && exists m :: IsMaximum(m, 0, items) && duration == m as real / 48000.0
    {
      ScanOfStream(items, tail);
      assert IsMaximum(total, 0, items);
    }
  }
}
