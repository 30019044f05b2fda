/**
 * `HttpHeadersFilter`: a filter computes the headers to send for a request,
 * and the static `filter(filters, request)` runs a list of them.
 */
module FilterChain {
  import opened Wrappers
  import opened CaseInsensitiveMaps
  import opened Headers

  /** A `ServerHttpRequest`: its headers, and the rest of it, which no filter here looks into. */
  datatype Request<R> = Request(headers: HeaderSet, rest: R)

  /** An `HttpHeadersFilter`: `filter(request)`. */
  type HeadersFilter<!R> = Request<R> -> HeaderSet

  /**
   * The value of `filtered` once each filter of `filters` has been applied
   * to `request`, from `start` on: each application overwrites it, so the
   * last filter's output is left, or `start` when there is no filter.
   */
  function Overwrite<R>(filters: seq<HeadersFilter<R>>, request: Request<R>, start: HeaderSet): (filtered: HeaderSet)
    ensures filtered == if filters == [] then start else filters[|filters| - 1](request)
  {
    if filters == [] then start else Overwrite(filters[1..], request, filters[0](request))
  }

  /**
   * What `filter(filters, request)` returns; `None` is a `null` list: the
   * request's own headers for a `null` or empty list, and otherwise the
   * last filter's output on the original request.
   */
  function Combined<R>(filters: Option<seq<HeadersFilter<R>>>, request: Request<R>): (filtered: HeaderSet)
    ensures filtered ==
      if filters.None? || filters.value == [] then request.headers
      else filters.value[|filters.value| - 1](request)
  {
    match filters
    case None => request.headers
    case Some(fs) => Overwrite(fs, request, request.headers)
  }

  /**
   * `filter(filters, request)`: starts from the request's headers and sets
   * the result to each filter's output in turn, every filter being handed
   * the original request. `inputs` records what each filter was given.
   */
  method FilterAll<R>(filters: Option<seq<HeadersFilter<R>>>, request: Request<R>)
      returns (filtered: HeaderSet, ghost inputs: seq<Request<R>>)
    ensures filtered == Combined(filters, request)
    ensures filters.Some? ==> |inputs| == |filters.value|
    ensures forall i :: 0 <= i < |inputs| ==> inputs[i] == request
  {
    filtered := request.headers;
    inputs := [];
    if filters.Some? {
      var fs := filters.value;
      for i := 0 to |fs|
        invariant Overwrite(fs, request, request.headers) == Overwrite(fs[i..], request, filtered)
        invariant |inputs| == i
        invariant forall j :: 0 <= j < i ==> inputs[j] == request
      {
        assert fs[i..][1..] == fs[i + 1..];
        var filter, arg := fs[i], request;
        filtered := filter(arg);
        inputs := inputs + [arg];
      }
    }
  }

  /** Whatever the filters before it computed, the output is that of the last filter alone. */
  lemma EarlierOutputsDiscarded<R>(filters: seq<HeadersFilter<R>>, last: HeadersFilter<R>, request: Request<R>)
    ensures Combined(Some(filters + [last]), request) == Combined(Some([last]), request) == last(request)
  {
  }

  // ---------------------------------------------------------------------
  // The chain as intended: each filter is given the output of the one before

  /**
   * The headers after running `filters` in order, each on the request
   * carrying the previous output: the request's own headers when there are
   * no filters, and the one filter's output when there is one.
   */
  function Chained<R>(filters: seq<HeadersFilter<R>>, request: Request<R>): (h: HeaderSet)
    ensures filters == [] ==> h == request.headers
    ensures |filters| == 1 ==> h == filters[0](request)
  {
    if filters == [] then request.headers
    else Chained(filters[1..], Request(filters[0](request), request.rest))
  }

  /** A chain split in two runs the second part on what the first part produced. */
  lemma {:induction false} ChainedAppend<R>(first: seq<HeadersFilter<R>>, second: seq<HeadersFilter<R>>, request: Request<R>)
    ensures Chained(first + second, request) == Chained(second, Request(Chained(first, request), request.rest))
  {
    if first != [] {
      assert (first + second)[1..] == first[1..] + second;
      ChainedAppend(first[1..], second, Request(first[0](request), request.rest));
    } else {
      assert first + second == second;
    }
  }

  /** Adding one filter at the end runs it on the chain's output. */
  lemma ChainedStep<R>(filters: seq<HeadersFilter<R>>, last: HeadersFilter<R>, request: Request<R>)
    ensures Chained(filters + [last], request) == last(Request(Chained(filters, request), request.rest))
  {
    ChainedAppend(filters, [last], request);
  }

  /**
   * The combinator as intended: `filtered` is handed on, so each filter
   * works on what the filters before it produced.
   */
  method FilterChained<R>(filters: Option<seq<HeadersFilter<R>>>, request: Request<R>) returns (filtered: HeaderSet)
    ensures filtered == match filters case None => request.headers case Some(fs) => Chained(fs, request)
  {
    filtered := request.headers;
    if filters.Some? {
      var fs := filters.value;
      for i := 0 to |fs|
        invariant filtered == Chained(fs[..i], request)
      {
        ChainedStep(fs[..i], fs[i], request);
        assert fs[..i + 1] == fs[..i] + [fs[i]];
        var filter := fs[i];
        filtered := filter(Request(filtered, request.rest));
      }
      assert fs[..|fs|] == fs;
    }
  }

  /**
   * The difference in one example: a filter that drops every header, then
   * one that keeps what it is given. As written, the headers come back; as
   * intended, none do.
   */
  lemma DroppedHeadersComeBack<R>(request: Request<R>, drop: HeadersFilter<R>, keep: HeadersFilter<R>)
    requires request.headers != []
    requires forall r :: drop(r) == []
    requires forall r :: keep(r) == r.headers
    ensures Combined(Some([drop, keep]), request) == request.headers
    ensures Chained([drop, keep], request) == []
    ensures Combined(Some([drop, keep]), request) != Chained([drop, keep], request)
  {
    ChainedStep([drop], keep, request);
    assert [drop] + [keep] == [drop, keep];
  }
}
