/** Overflow chains. */
module Overflow {
  // overflow.cpp: following a chain of linked pages under guards against cycles and size.

  import opened Common
  import opened Pages

  datatype Status = Complete | Cycle | PageLimit | LengthLimit | DanglingPage | BadStart

  datatype Walk = Walk(status: Status, data: bytes, visited: seq<nat>)

  /** The decoded file a walk runs over, and its two caps. */
  datatype Chain = Chain(file: bytes, pages: seq<Page>, spans: seq<PageSpan>, maxPages: nat, maxBytes: nat)
  {
    predicate InRange(page: nat) {
      page < |pages| && page < |spans|
    }

    function Next(page: nat): nat
      requires InRange(page)
    {
      pages[page].overflowNext
    }

    /** The bytes between a page's header and its free space, as far as they exist. */
    function Payload(page: nat): bytes
      requires InRange(page)
    {
      var span := spans[page];
      var end := Min(pages[page].freeStart, span.length);
      if end > PAGE_HEADER && span.offset + end <= |file|
      then file[span.offset + PAGE_HEADER..span.offset + end] else []
    }

    function Payloads(visited: seq<nat>): bytes
      requires forall p | p in visited :: InRange(p)
    {
      if visited == [] then []
      else Payloads(visited[..|visited| - 1]) + Payload(visited[|visited| - 1])
    }

    predicate Follows(visited: seq<nat>, i: nat)
      requires 0 < i < |visited| && forall p | p in visited :: InRange(p)
    {
      visited[i] == Next(visited[i - 1]) && visited[i] != NO_OVERFLOW
    }

    /** Distinct pages, each the link of the one before. */
    ghost predicate Linked(start: nat, visited: seq<nat>) {
      && (forall p | p in visited :: InRange(p))
      && (visited != [] ==> visited[0] == start)
      && (forall i | 0 < i < |visited| :: Follows(visited, i))
      && (forall i, j | 0 <= i < j < |visited| :: visited[i] != visited[j])
    }

    /** The link after the last page; the start while nothing has been visited. */
    function Pending(start: nat, visited: seq<nat>): nat
      requires forall p | p in visited :: InRange(p)
    {
      if visited == [] then start else Next(visited[|visited| - 1])
    }

    /**
      * What each outcome means: how far the walk got, what it collected, and the one reason
      * it stopped there.
      */
    ghost predicate Meets(start: nat, r: Walk) {
      if !InRange(start) then r == Walk(BadStart, [], [])
      else
        && Linked(start, r.visited) && |r.visited| <= maxPages && |r.data| <= maxBytes
        && var n, next := |r.visited|, Pending(start, r.visited);
           match r.status
           case BadStart => false
           case Complete => n > 0 && next == NO_OVERFLOW && r.data == Payloads(r.visited)
           case DanglingPage => n > 0 && next != NO_OVERFLOW && !InRange(next) && r.data == Payloads(r.visited)
           case Cycle => n > 0 && next != NO_OVERFLOW && next in r.visited && r.data == Payloads(r.visited)
           case PageLimit =>
             && n == maxPages && (n > 0 ==> next != NO_OVERFLOW) && InRange(next) && next !in r.visited
             && r.data == Payloads(r.visited)
           case LengthLimit =>
             n > 0 && r.data == Payloads(r.visited[..n - 1]) && |Payloads(r.visited)| > maxBytes
    }
  }

  /** `reconstruct_overflow`: it ends on every page graph, within one turn per page and one more. */
  method Reconstruct(c: Chain, start: nat) returns (r: Walk)
    ensures c.Meets(start, r)
    ensures |r.visited| <= |c.pages|
  {
    if start >= |c.pages| || start >= |c.spans| {
      return Walk(BadStart, [], []);
    }
    hide Chain.Payload, Chain.Payloads, Chain.Linked, Chain.Meets, Standing;
    var seen: set<nat> := {};
    var visited: seq<nat> := [];
    var data: bytes := [];
    var current: nat := start;
    NothingVisited(c, start);
    while true
      invariant Standing(c, start, visited, current, data) && c.InRange(current) && |visited| <= |c.pages|
      invariant forall p :: p in seen <==> p in visited
      decreases |c.pages| - |visited|
    {
      StopBefore(c, start, visited, current, data);
      if current in seen {
        return Walk(Cycle, data, visited);
      }
      if |visited| >= c.maxPages {
        return Walk(PageLimit, data, visited);
      }
      StopAfter(c, start, visited, current, data);
      seen := seen + {current};
      visited := visited + [current];
      var payload := ReadPayload(c, current);
      if |data| + |payload| > c.maxBytes {
        return Walk(LengthLimit, data, visited);
      }
      data := data + payload;
      var next: nat := c.pages[current].overflowNext;
      if next == NO_OVERFLOW {
        return Walk(Complete, data, visited);
      }
      if next >= |c.pages| || next >= |c.spans| {
        return Walk(DanglingPage, data, visited);
      }
      current := next;
    }
  }

  /** The two reasons to stop before the page at hand is visited. */
  lemma StopBefore(c: Chain, start: nat, visited: seq<nat>, current: nat, data: bytes)
    requires Standing(c, start, visited, current, data) && c.InRange(current)
    ensures current in visited ==> c.Meets(start, Walk(Cycle, data, visited))
    ensures current !in visited && |visited| >= c.maxPages ==> c.Meets(start, Walk(PageLimit, data, visited))
  {
    hide Chain.Payloads;
  }

  /** The three reasons to stop once it is visited, and where the loop stands without any. */
  lemma StopAfter(c: Chain, start: nat, visited: seq<nat>, current: nat, data: bytes)
    requires Standing(c, start, visited, current, data) && c.InRange(current)
    requires current !in visited && |visited| < c.maxPages
    ensures var v, d, next := visited + [current], data + c.Payload(current), c.Next(current);
            && |v| <= |c.pages|
            && if |d| > c.maxBytes then c.Meets(start, Walk(LengthLimit, data, v))
               else if next == NO_OVERFLOW then c.Meets(start, Walk(Complete, d, v))
               else if !c.InRange(next) then c.Meets(start, Walk(DanglingPage, d, v))
               else Standing(c, start, v, next, d)
  {
    LinkedSnoc(c, start, visited, current);
    var v := visited + [current];
    AtMostAll(c, start, v);
    assert v != [] && v[|v| - 1] == current;
    hide Chain.Payloads, Chain.Linked;
  }

  /** Where the loop stands: a walk so far, and the page to look at next. */
  ghost predicate Standing(c: Chain, start: nat, visited: seq<nat>, current: nat, data: bytes) {
    && c.InRange(start) && c.Linked(start, visited) && current == c.Pending(start, visited)
    && |visited| <= c.maxPages && (visited != [] ==> current != NO_OVERFLOW)
    && data == c.Payloads(visited) && |data| <= c.maxBytes
  }

  lemma NothingVisited(c: Chain, start: nat)
    requires c.InRange(start)
    ensures Standing(c, start, [], start, [])
  {
  }

  /** Distinct pages in range are no more than there are pages. */
  lemma AtMostAll(c: Chain, start: nat, visited: seq<nat>)
    requires c.Linked(start, visited)
    ensures |visited| <= |c.pages|
  {
    DistinctCount(visited, |c.pages|);
  }

  lemma {:induction false} DistinctCount(s: seq<nat>, n: nat)
    requires forall p | p in s :: p < n
    requires forall i, j | 0 <= i < j < |s| :: s[i] != s[j]
    ensures |s| <= n
    decreases n
  {
    assert |s| > 0 ==> s[0] in s;
    if n > 0 {
      var t := Without(s, n - 1);
      DistinctCount(t, n - 1);
    }
  }

  /** A list of distinct numbers with one of them taken out. */
  lemma Without(s: seq<nat>, x: nat) returns (t: seq<nat>)
    requires forall i, j | 0 <= i < j < |s| :: s[i] != s[j]
    ensures |t| >= |s| - 1 && x !in t && forall p | p in t :: p in s
    ensures forall i, j | 0 <= i < j < |t| :: t[i] != t[j]
  {
    if x in s {
      var i :| 0 <= i < |s| && s[i] == x;
      t := s[..i] + s[i + 1..];
      assert forall k | 0 <= k < |t| :: t[k] == s[if k < i then k else k + 1];
    } else {
      t := s;
    }
  }

  /** The payload region, clamped twice: to the span and to the file. */
  method ReadPayload(c: Chain, page: nat) returns (payload: bytes)
    requires c.InRange(page)
    ensures payload == c.Payload(page)
  {
    var span := c.spans[page];
    var end: nat := c.pages[page].freeStart;
    if end > span.length {
      end := span.length;
    }
    payload := [];
    if end > PAGE_HEADER && span.length > PAGE_HEADER {
      var from, to := span.offset + PAGE_HEADER, span.offset + end;
      if from < |c.file| && to <= |c.file| && to >= from {
        payload := c.file[from..to];
      }
    }
  }

  lemma LinkedSnoc(c: Chain, start: nat, visited: seq<nat>, page: nat)
    requires c.Linked(start, visited) && c.InRange(page) && page !in visited && page == c.Pending(start, visited)
    requires visited != [] ==> page != NO_OVERFLOW
    ensures c.Linked(start, visited + [page])
    ensures c.Payloads(visited + [page]) == c.Payloads(visited) + c.Payload(page)
    ensures (visited + [page])[..|visited|] == visited
  {
    var all := visited + [page];
    assert all[..|visited|] == visited && all[|visited|] == page;
    hide Chain.Payload;
    forall i | 0 < i < |all| ensures c.Follows(all, i) {
      if i < |visited| {
        assert c.Follows(visited, i);
      }
    }
  }

  // ---- the outcome is determined

  lemma {:induction false} PrefixBytes(c: Chain, start: nat, visited: seq<nat>, i: nat)
    requires c.Linked(start, visited) && i <= |visited|
    ensures c.Linked(start, visited[..i]) && |c.Payloads(visited[..i])| <= |c.Payloads(visited)|
    decreases |visited|
  {
    if i < |visited| {
      var before := visited[..|visited| - 1];
      assert before[..i] == visited[..i];
      forall j | 0 < j < |before| ensures c.Follows(before, j) {
        assert c.Follows(visited, j);
      }
      PrefixBytes(c, start, before, i);
    } else {
      assert visited[..i] == visited;
    }
  }

  /** Two walks from one page run side by side. */
  lemma {:induction false} WalksAgree(c: Chain, start: nat, a: seq<nat>, b: seq<nat>, n: nat)
    requires c.Linked(start, a) && c.Linked(start, b) && n <= |a| && n <= |b|
    ensures a[..n] == b[..n]
  {
    if n > 0 {
      WalksAgree(c, start, a, b, n - 1);
      assert a[..n] == a[..n - 1] + [a[n - 1]] && b[..n] == b[..n - 1] + [b[n - 1]];
      if n > 1 {
        assert c.Follows(a, n - 1) && c.Follows(b, n - 1);
        assert a[n - 2] == a[..n - 1][n - 2] == b[..n - 1][n - 2] == b[n - 2];
      }
    }
  }

  lemma BytesFit(c: Chain, start: nat, r: Walk)
    requires c.Meets(start, r) && r.visited != []
    ensures |c.Payloads(r.visited[..|r.visited| - 1])| <= c.maxBytes
  {
    PrefixBytes(c, start, r.visited, |r.visited| - 1);
    hide Chain.Payloads;
  }

  /** A walk that goes on past a point had no reason to stop there. */
  lemma NoReasonToStop(c: Chain, start: nat, r: Walk, longer: Walk)
    requires c.Meets(start, r) && c.Meets(start, longer) && c.InRange(start)
    ensures |r.visited| >= |longer.visited|
  {
    if |r.visited| < |longer.visited| {
      PassedBy(c, start, r, longer);
      assert false;
    }
  }

  lemma PassedBy(c: Chain, start: nat, r: Walk, longer: Walk)
    requires c.Linked(start, r.visited) && c.Meets(start, longer) && c.InRange(start)
    requires |r.visited| < |longer.visited|
    ensures !c.Meets(start, r)
  {
    hide Chain.Payloads, Chain.Payload;
    var n, v := |r.visited|, longer.visited;
    WalksAgree(c, start, r.visited, v, n);
    assert r.visited[..n] == r.visited;
    var next := v[n];
    assert next !in v[..n];
    assert n > 0 ==> c.Follows(v, n);
    assert n > 0 ==> r.visited[n - 1] == v[..n][n - 1] == v[n - 1];
    BytesFit(c, start, longer);
    var front := v[..|v| - 1];
    PrefixBytes(c, start, v, |v| - 1);
    PrefixBytes(c, start, front, n);
    assert front[..n] == r.visited;
    GoesOn(c, start, r, next);
  }

  /** No walk stops where the next page is there, new and within both caps. */
  lemma GoesOn(c: Chain, start: nat, r: Walk, next: nat)
    requires c.InRange(start) && c.Linked(start, r.visited) && |r.visited| < c.maxPages
    requires next == c.Pending(start, r.visited) && c.InRange(next) && next !in r.visited
    requires r.visited != [] ==> next != NO_OVERFLOW
    requires |c.Payloads(r.visited)| <= c.maxBytes
    ensures !c.Meets(start, r)
  {
    hide Chain.Payloads;
  }

  /** The specification leaves no choice: status, bytes and pages follow from chain and caps. */
  lemma OutcomeDetermined(c: Chain, start: nat, a: Walk, b: Walk)
    requires c.Meets(start, a) && c.Meets(start, b)
    ensures a == b
  {
    if c.InRange(start) {
      NoReasonToStop(c, start, a, b);
      NoReasonToStop(c, start, b, a);
      var n := |a.visited|;
      WalksAgree(c, start, a.visited, b.visited, n);
      assert a.visited[..n] == a.visited && b.visited[..n] == b.visited;
    }
  }
}
