/**
 The two parsers of the HTTP Range header: the origin's (cmd/origin/main.go) and the edge's
 (internal/edgeagent/server.go). An edge forwards a client's header to the origin, so a header
 one of them accepts and the other refuses, or reads differently, is a fault.
 */
module RangeHeaders {
  import opened GoText

  datatype Range = Range(start: int, end: int)
  datatype Result = Ok(range: Range) | Err(reason: string)
  datatype Fields = Fields(first: string, last: string)

  const PREFIX := "bytes="

  // strings.SplitN(s, "-", 2), None when there is no dash.
  function SplitDash(s: string): Option<Fields> {
    var dash := IndexOf(s, '-');
    if dash == |s| then None else Some(Fields(s[..dash], s[dash + 1..]))
  }

  // parseHTTPRange
  function OriginParse(header: string, size: int): Result {
    if !HasPrefix(header, PREFIX) then Err("invalid range prefix")
    else
      match SplitDash(header[|PREFIX|..])
      case None => Err("invalid range format")
      case Some(Fields(first, last)) =>
        if first == "" then
          var suffix := ParseInt64(last);
          if suffix.None? || suffix.value <= 0 then Err("invalid suffix range")
          else OriginCheck(Max(Wrap64(size - suffix.value), 0), Wrap64(size - 1), size)
        else
          var start := ParseInt64(first);
          if start.None? then Err("invalid range start")
          else if last == "" then OriginCheck(start.value, Wrap64(size - 1), size)
          else
            var end := ParseInt64(last);
            if end.None? then Err("invalid range end") else OriginCheck(start.value, end.value, size)
  }

  function OriginCheck(start: int, end: int, size: int): Result {
    if start < 0 || end < 0 || start > end || start >= size then Err("range not satisfiable")
    else Ok(Range(start, if end >= size then size - 1 else end))
  }

  // parseRangeHeader
  function EdgeParse(header: string, size: int): Result {
    if header == "" then Err("empty range header")
    else if !HasPrefix(header, PREFIX) then Err("invalid range prefix")
    else
      match SplitDash(header[|PREFIX|..])
      case None => Err("invalid range format")
      case Some(Fields(first, last)) =>
        if first == "" then
          var suffix := ParseInt64(last);
          if suffix.None? then Err("invalid suffix range")
          else EdgeCheck(Max(Wrap64(size - suffix.value), 0), Wrap64(size - 1), size)
        else
          var start := ParseInt64(first);
          if start.None? then Err("invalid range start")
          else if last == "" then EdgeCheck(start.value, Wrap64(size - 1), size)
          else
            var end := ParseInt64(last);
            if end.None? then Err("invalid range end") else EdgeCheck(start.value, end.value, size)
  }

  function EdgeCheck(start: int, end: int, size: int): Result {
    if start < 0 || start >= size || end < start then Err("range not satisfiable")
    else Ok(Range(start, if end >= size then size - 1 else end))
  }

  // ---------- The two fields of a header ----------

  ghost predicate Reads(header: string, first: string, last: string) {
    header == PREFIX + first + "-" + last && '-' !in first
  }

  lemma SplitIsExact(s: string, first: string, last: string)
    ensures SplitDash(s) == Some(Fields(first, last)) <==> s == first + "-" + last && '-' !in first
  {
    var dash := IndexOf(s, '-');
    if dash < |s| {
      assert s == s[..dash] + "-" + s[dash + 1..];
    }
    if s == first + "-" + last && '-' !in first {
      assert forall i | 0 <= i < |first| :: s[i] == first[i];
      assert s[|first|] == '-';
      assert s[..dash] == first && s[dash + 1..] == last;
    }
  }

  lemma FieldsAreExact(header: string, first: string, last: string)
    ensures HasPrefix(header, PREFIX) && SplitDash(header[|PREFIX|..]) == Some(Fields(first, last))
            <==> Reads(header, first, last)
  {
    if HasPrefix(header, PREFIX) {
      var r := header[|PREFIX|..];
      SplitIsExact(r, first, last);
      assert header == PREFIX + r;
      assert PREFIX + first + "-" + last == PREFIX + (first + "-" + last);
      assert r == first + "-" + last <==> PREFIX + r == PREFIX + (first + "-" + last) by {
        assert PREFIX + r == PREFIX + (first + "-" + last) ==>
            (PREFIX + r)[|PREFIX|..] == (PREFIX + (first + "-" + last))[|PREFIX|..];
      }
    } else {
      assert (PREFIX + first + "-" + last)[..|PREFIX|] == PREFIX;
    }
  }

  // ---------- Agreement ----------

  predicate SameOutcome(a: Result, b: Result) {
    a == b || (a.Err? && b.Err?)
  }

  // A negative suffix length so large that size - suffix leaves int64.
  ghost predicate SuffixOverflows(header: string, size: int) {
    exists last | Reads(header, "", last) ::
      ParseInt64(last).Some? && size - ParseInt64(last).value > INT64_MAX
  }

  /** For every string and every size an int64 can hold, the parsers agree if and only if the
      suffix subtraction does not overflow on a non-empty object; there the edge serves the
      whole object and the origin refuses. */
  lemma ParsersAgree(header: string, size: int)
    requires InInt64(size)
    ensures SameOutcome(OriginParse(header, size), EdgeParse(header, size))
            <==> !(size > 0 && SuffixOverflows(header, size))
    ensures size > 0 && SuffixOverflows(header, size) ==>
              OriginParse(header, size).Err? && EdgeParse(header, size) == Ok(Range(0, size - 1))
  {
    forall last
      ensures HasPrefix(header, PREFIX) && SplitDash(header[|PREFIX|..]) == Some(Fields("", last))
              <==> Reads(header, "", last)
    {
      FieldsAreExact(header, "", last);
    }
    if HasPrefix(header, PREFIX) {
      var fields := SplitDash(header[|PREFIX|..]);
      if fields.Some? && fields.value.first == "" {
        assert fields == Some(Fields("", fields.value.last));
      }
    }
  }

  // Asks for the last -n bytes; with the largest n it is "bytes=--9223372036854775808".
  function NegativeSuffix(n: nat): string {
    PREFIX + "" + "-" + ("-" + Digits(n))
  }

  lemma NegativeSuffixParses(n: nat)
    requires n <= 0x8000_0000_0000_0000
    ensures ParseInt64("-" + Digits(n)) == Some(0 - n as int)
  {
    assert ("-" + Digits(n))[1..] == Digits(n);
  }

  /** The parsers disagree on the header that asks for the last -n bytes exactly when size + n does
      not fit an int64; so for every non-empty object they disagree on the largest n. */
  lemma NegativeSuffixSplitsParsers(n: nat, size: int)
    requires n <= 0x8000_0000_0000_0000 && 0 < size <= INT64_MAX
    ensures !SameOutcome(OriginParse(NegativeSuffix(n), size), EdgeParse(NegativeSuffix(n), size)) <==> size + n > INT64_MAX
  {
    var header, own := NegativeSuffix(n), "-" + Digits(n);
    NegativeSuffixParses(n);
    assert Reads(header, "", own);
    forall last | Reads(header, "", last) ensures last == own {
      FieldsAreExact(header, "", last);
      FieldsAreExact(header, "", own);
    }
    ParsersAgree(header, size);
  }

  // ---------- What a header means ----------

  // The bytes that the header selects out of `size`, in the forms of section 14.1.2 of RFC 9110:
  // the last so many bytes, or from a first byte to an optional last one. Numbers are read as
  // ParseInt reads them.
  ghost predicate Selects(first: string, last: string, size: int, range: Range) {
    if first == "" then
      var length := ParseInt64(last);
      length.Some? && 0 < length.value && 0 < size && range == Range(Max(size - length.value, 0), size - 1)
    else
      var limit := if last == "" then Some(size - 1) else ParseInt64(last);
      && ParseInt64(first) == Some(range.start) && range.start < size
      && limit.Some? && range.start <= limit.value && range.end == Min(limit.value, size - 1)
  }

  /** The origin accepts a header if and only if it selects a range, returns that range, and the
      range lies inside the object. By ParsersAgree so does the edge, short of the overflow. */
  lemma OriginAcceptsWhatIsSelected(header: string, size: int, range: Range)
    requires InInt64(size)
    ensures OriginParse(header, size) == Ok(range)
            <==> exists first, last :: Reads(header, first, last) && Selects(first, last, size, range)
    ensures OriginParse(header, size) == Ok(range) ==> 0 <= range.start <= range.end < size
  {
    forall first, last
      ensures HasPrefix(header, PREFIX) && SplitDash(header[|PREFIX|..]) == Some(Fields(first, last))
              <==> Reads(header, first, last)
    {
      FieldsAreExact(header, first, last);
    }
    if HasPrefix(header, PREFIX) {
      var fields := SplitDash(header[|PREFIX|..]);
      if fields.Some? {
        var first, last := fields.value.first, fields.value.last;
        assert Reads(header, first, last);
        assert ParseInt64(first).Some? ==> 0 <= ParseInt64(first).value;
        assert OriginParse(header, size) == Ok(range) <==> Selects(first, last, size, range);
      }
    }
  }
}
