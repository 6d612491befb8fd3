/**
 * The page-level state of script.js and its event handlers: the input
 * handler that recomputes the range, the previous/next page buttons,
 * the page slice shown by `renderPage`, and the capped download list.
 */
module Session {
  import opened Wrappers
  import opened Bits
  import opened Text
  import opened Address
  import opened Cidr

  /** Addresses per page. */
  const PAGE_SIZE: nat := 256
  /** Largest block whose addresses are listed on the page. */
  const RENDER_LIMIT: nat := 65536
  /** Largest number of addresses a download writes. */
  const MAX_DOWNLOAD: nat := 1_000_000

  /** `[f(lo), f(lo + 1), ..., f(hi - 1)]`: what a loop from lo up to hi pushes. */
  function Tabulate<T>(f: int -> T, lo: nat, hi: nat): seq<T>
  {
    seq(if hi <= lo then 0 else hi - lo, k requires 0 <= k => f(lo + k))
  }

  /**
   * `for (let i = lo; i < hi; i++) list.push(f(i))`: the loop the input
   * handler and the download handler run with `f` being `numToIp`.
   */
  method Collect<T>(f: int -> T, lo: nat, hi: nat) returns (list: seq<T>)
    requires lo <= hi
    ensures list == Tabulate(f, lo, hi)
  {
    list := [];
    var i := lo;
    while i < hi
      invariant lo <= i <= hi
      invariant list == Tabulate(f, lo, i)
    {
      list := list + [f(i)];
      i := i + 1;
    }
  }

  /** A list tabulated from f is undone entry by entry by any g that undoes f on the range. */
  lemma TabulateInverse<T, E>(f: int -> T, g: T -> Result<nat, E>, lo: nat, hi: nat, k: nat)
    requires forall n :: lo <= n < hi ==> g(f(n)) == Ok(n)
    requires lo + k < hi
    ensures g(Tabulate(f, lo, hi)[k]) == Ok(lo + k)
  {
    var list := Tabulate(f, lo, hi);
    assert list[k] == f(lo + k);
  }

  /** Each listed entry reads back as its address: the list is ascending and gap-free. */
  lemma AddressListAt(lo: nat, hi: nat, k: nat)
    requires hi <= TWO32 && lo + k < hi
    ensures ParseAddress(Tabulate(NumToIp, lo, hi)[k]) == Ok(lo + k)
  {
    forall n | lo <= n < hi
      ensures ParseAddress(NumToIp(n)) == Ok(n)
    {
      AddressRoundTrip(n);
    }
    TabulateInverse(NumToIp, ParseAddress, lo, hi, k);
  }

  /** A downloaded file split at its newlines gives back the listed addresses. */
  lemma ExportLines(lo: nat, hi: nat)
    requires lo < hi <= TWO32
    ensures Split(Join(Tabulate(NumToIp, lo, hi), '\n'), '\n') == Tabulate(NumToIp, lo, hi)
  {
    forall n | lo <= n < hi
      ensures '\n' !in NumToIp(n)
    {
      AddressShape(n);
      NoNewline(NumToIp(n));
    }
    TabulateAvoids(NumToIp, lo, hi, '\n');
    SplitJoin(Tabulate(NumToIp, lo, hi), '\n');
  }

  /** A character none of the tabulated texts holds is in no entry of the list. */
  lemma TabulateAvoids(f: int -> string, lo: nat, hi: nat, c: char)
    requires forall n :: lo <= n < hi ==> c !in f(n)
    ensures forall k :: 0 <= k < |Tabulate(f, lo, hi)| ==> c !in Tabulate(f, lo, hi)[k]
  {
    var list := Tabulate(f, lo, hi);
    forall k | 0 <= k < |list|
      ensures c !in list[k]
    {
      assert list[k] == f(lo + k);
    }
  }

  /** Text of the dotted shape holds digits and dots only. */
  lemma NoNewline(a: string)
    requires IsDottedShape(a)
    ensures '\n' !in a
  {
    var parts := Split(a, '.');
    forall i | 0 <= i < |parts| ensures '\n' !in parts[i] {
      assert IsDigits(parts[i]);
    }
    JoinSplit(a, '.');
    JoinAvoids(parts, '.', '\n');
  }

  /** `Math.max(1, Math.ceil(length / PAGE_SIZE))`. */
  function TotalPages(length: nat): (r: nat)
    ensures r >= 1
    ensures length == 0 ==> r == 1
    ensures length > 0 ==> (r - 1) * PAGE_SIZE < length <= r * PAGE_SIZE
  {
    var pages := (length + PAGE_SIZE - 1) / PAGE_SIZE;
    if pages > 1 then pages else 1
  }

  /** `items.slice((page - 1) * PAGE_SIZE, page * PAGE_SIZE)`: one page, clipped to the list. */
  function PageSlice<T>(items: seq<T>, page: nat): (r: seq<T>)
    requires page >= 1
    ensures |r| <= PAGE_SIZE
    ensures forall k :: 0 <= k < |r| ==> (page - 1) * PAGE_SIZE + k < |items| && r[k] == items[(page - 1) * PAGE_SIZE + k]
    ensures |r| == PAGE_SIZE || (page - 1) * PAGE_SIZE + |r| >= |items|
  {
    var start := (page - 1) * PAGE_SIZE;
    if start >= |items| then []
    else if start + PAGE_SIZE <= |items| then items[start..start + PAGE_SIZE]
    else items[start..]
  }

  /** The pages from `page` on, laid end to end. */
  ghost function PagesFrom<T>(items: seq<T>, page: nat): seq<T>
    requires page >= 1
    decreases TotalPages(|items|) + 1 - page
  {
    if page > TotalPages(|items|) then []
    else PageSlice(items, page) + PagesFrom(items, page + 1)
  }

  /** The pages 1..TotalPages together are exactly the list, in order. */
  lemma PagesCoverList<T>(items: seq<T>)
    ensures PagesFrom(items, 1) == items
  {
    PagesFromSuffix(items, 1);
  }

  lemma {:induction false} PagesFromSuffix<T>(items: seq<T>, page: nat)
    requires page >= 1
    ensures (page - 1) * PAGE_SIZE <= |items| ==> PagesFrom(items, page) == items[(page - 1) * PAGE_SIZE..]
    ensures (page - 1) * PAGE_SIZE > |items| ==> PagesFrom(items, page) == []
    decreases TotalPages(|items|) + 1 - page
  {
    var start := (page - 1) * PAGE_SIZE;
    if page > TotalPages(|items|) {
      assert start >= |items|;
    } else {
      PagesFromSuffix(items, page + 1);
      if start + PAGE_SIZE <= |items| {
        assert items[start..start + PAGE_SIZE] + items[start + PAGE_SIZE..] == items[start..];
      } else {
        assert start <= |items|;
      }
    }
  }

  /** The next button moves exactly when the current page is not the last one. */
  lemma NextGuard(length: nat, page: nat)
    requires page >= 1
    ensures page * PAGE_SIZE < length <==> page < TotalPages(length)
  {
    var n := TotalPages(length);
    if page < n {
      MulMonotone(PAGE_SIZE, page, n - 1);
    } else if length > 0 {
      MulMonotone(PAGE_SIZE, n, page);
    }
  }

  /** A page within 1..TotalPages shows something exactly when the list is not empty. */
  lemma PageEmptyIff<T>(items: seq<T>, page: nat)
    requires 1 <= page <= TotalPages(|items|)
    ensures PageSlice(items, page) == [] <==> items == []
  {
    MulMonotone(PAGE_SIZE, page - 1, TotalPages(|items|) - 1);
  }

  /** What `renderPage` shows: the page number, the page count and the page's addresses. */
  datatype PageView = PageView(page: nat, totalPages: nat, items: seq<string>)

  /**
   * What the input handler writes besides the page. On empty and rejected
   * input the handler leaves the summary cells alone, so they go on showing
   * the last accepted block; those two outcomes carry only what is written.
   */
  datatype InputOutcome =
    | Cleared                                   // empty input: error and warning blanked
    | Failed(kind: ErrorKind)                   // the error message; warning blanked
    | Shown(summary: Summary, warning: Option<nat>)  // the summary; the warning carries the block size

  /**
   * The module-level state of script.js: `currentPage`, `ipArray`,
   * `lastNetwork`, `lastBroadcast` and `lastTotal`.
   */
  class CidrSession {
    var currentPage: nat
    var ipArray: seq<string>
    var lastNetwork: Option<nat>
    var lastBroadcast: Option<nat>
    var lastTotal: nat

    /**
     * The page is within range; the last accepted range is remembered as a
     * whole; a non-empty list is exactly the addresses of that range.
     */
    ghost predicate Valid()
      reads this
    {
      1 <= currentPage <= TotalPages(|ipArray|) &&
      (lastNetwork.Some? <==> lastBroadcast.Some?) &&
      (lastNetwork.None? ==> lastTotal == 0) &&
      (lastNetwork.Some? ==>
         lastTotal >= 1 && lastNetwork.value % lastTotal == 0 &&
         lastBroadcast.value == lastNetwork.value + lastTotal - 1 && lastBroadcast.value < TWO32) &&
      (ipArray != [] ==>
         lastNetwork.Some? && lastTotal <= RENDER_LIMIT &&
         ipArray == Tabulate(NumToIp, lastNetwork.value, lastNetwork.value + lastTotal))
    }

    /** The initial state: page 1, no list, no range accepted yet. */
    constructor ()
      ensures Valid()
      ensures currentPage == 1 && ipArray == []
      ensures lastNetwork == None && lastBroadcast == None && lastTotal == 0
    {
      currentPage := 1;
      ipArray := [];
      lastNetwork := None;
      lastBroadcast := None;
      lastTotal := 0;
    }

    /** `renderPage`: the current page of the list. */
    function View(): (v: PageView)
      reads this
      requires Valid()
      ensures v.page == currentPage && v.totalPages == TotalPages(|ipArray|)
      ensures v.items == PageSlice(ipArray, currentPage)
      ensures v.items == [] <==> ipArray == []
    {
      PageEmptyIff(ipArray, currentPage);
      PageView(currentPage, TotalPages(|ipArray|), PageSlice(ipArray, currentPage))
    }

    /**
     * The input handler on already-trimmed text. Empty text and a rejected
     * CIDR clear the list and go back to page 1 but keep the last accepted
     * range for the download button. An accepted CIDR replaces the range and
     * lists its addresses when there are at most 65536 of them.
     */
    method Input(value: string) returns (outcome: InputOutcome)
      requires Valid()
      modifies this
      ensures Valid()
      ensures currentPage == 1
      ensures value == [] ==> outcome == Cleared
      ensures value != [] && CidrCalc(value).Err? ==> outcome == Failed(CidrCalc(value).error)
      ensures value == [] || CidrCalc(value).Err? ==>
                ipArray == [] && lastNetwork == old(lastNetwork) &&
                lastBroadcast == old(lastBroadcast) && lastTotal == old(lastTotal)
      ensures value != [] && CidrCalc(value).Ok? ==>
                var r := CidrCalc(value).value;
                && outcome == Shown(Summarize(r), if r.total > RENDER_LIMIT then Some(r.total) else None)
                && lastNetwork == Some(r.network) && lastBroadcast == Some(r.broadcast) && lastTotal == r.total
                && ipArray == (if r.total <= RENDER_LIMIT then Tabulate(NumToIp, r.network, r.broadcast + 1) else [])
    {
      if value == [] {
        ipArray := [];
        currentPage := 1;
        return Cleared;
      }
      var computed := CidrCalc(value);
      if computed.Err? {
        ipArray := [];
        currentPage := 1;
        return Failed(computed.error);
      }
      var r := computed.value;
      var warning := Accept(r);
      outcome := Shown(Summarize(r), warning);
    }

    /**
     * The success path of the input handler: remember the range for the
     * download button, reset the list to page 1, and list the addresses
     * unless there are more than RENDER_LIMIT of them, in which case the
     * warning carries the block size.
     */
    method Accept(r: Range) returns (warning: Option<nat>)
      requires WellFormed(r)
      modifies this
      ensures Valid()
      ensures currentPage == 1
      ensures lastNetwork == Some(r.network) && lastBroadcast == Some(r.broadcast) && lastTotal == r.total
      ensures warning == if r.total > RENDER_LIMIT then Some(r.total) else None
      ensures ipArray == if r.total <= RENDER_LIMIT then Tabulate(NumToIp, r.network, r.broadcast + 1) else []
    {
      lastNetwork := Some(r.network);
      lastBroadcast := Some(r.broadcast);
      lastTotal := r.total;
      ipArray := [];
      currentPage := 1;
      if r.total > RENDER_LIMIT {
        warning := Some(r.total);
      } else {
        ipArray := Collect(NumToIp, r.network, r.broadcast + 1);
        warning := None;
      }
    }

    /** The previous-page button: back one page unless on the first. */
    method PrevPage() returns (moved: bool)
      requires Valid()
      modifies this`currentPage
      ensures Valid()
      ensures moved == (old(currentPage) > 1)
      ensures currentPage == if moved then old(currentPage) - 1 else old(currentPage)
    {
      moved := currentPage > 1;
      if moved {
        currentPage := currentPage - 1;
      }
    }

    /** The next-page button: forward one page while the list goes on past this page. */
    method NextPage() returns (moved: bool)
      requires Valid()
      modifies this`currentPage
      ensures Valid()
      ensures moved == (old(currentPage) < TotalPages(|ipArray|))
      ensures currentPage == if moved then old(currentPage) + 1 else old(currentPage)
    {
      NextGuard(|ipArray|, currentPage);
      moved := currentPage * PAGE_SIZE < |ipArray|;
      if moved {
        currentPage := currentPage + 1;
      }
    }

    /**
     * The download button: nothing before a range has been accepted;
     * otherwise the newline-joined addresses of the last accepted range
     * from its network address up, at most MAX_DOWNLOAD of them, with
     * `truncated` set where the source alerts about the cap.
     */
    method Download() returns (file: Option<string>, truncated: bool)
      requires Valid()
      ensures lastNetwork.None? || lastBroadcast.None? ==> file == None && !truncated
      ensures lastNetwork.Some? && lastBroadcast.Some? ==>
                && truncated == (lastTotal > MAX_DOWNLOAD)
                && file == Some(Join(Tabulate(NumToIp, lastNetwork.value, lastNetwork.value + if truncated then MAX_DOWNLOAD else lastTotal), '\n'))
    {
      if lastNetwork.None? || lastBroadcast.None? {
        return None, false;
      }
      var network := lastNetwork.value;
      var end := lastBroadcast.value;
      truncated := false;
      if lastTotal > MAX_DOWNLOAD {
        truncated := true;
        end := network + MAX_DOWNLOAD - 1;
      }
      var lines := Collect(NumToIp, network, end + 1);
      file := Some(Join(lines, '\n'));
    }
  }
}
