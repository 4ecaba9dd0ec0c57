/**
  The parts of Go's `net/url` package that turn a link into its query values:
  the raw query that `url.Parse` records, `url.QueryUnescape`, and `url.ParseQuery`
  with the `url.Values` it builds. Each `char` stands for one byte of a Go string.
*/
module GoUrl {
  import opened Wrappers
  import opened GoStrings

  /** Every char of `s` is a byte value, as in a Go string. */
  predicate IsBytes(s: string)
  {
    forall i :: 0 <= i < |s| ==> s[i] as int < 256
  }

  predicate IsHex(c: char)
  {
    '0' <= c <= '9' || 'a' <= c <= 'f' || 'A' <= c <= 'F'
  }

  /** The value of one hex digit, in either case. */
  function Unhex(c: char): (n: nat)
    requires IsHex(c)
    ensures n < 16
  {
    if '0' <= c <= '9' then c as int - '0' as int
    else if 'a' <= c <= 'f' then c as int - 'a' as int + 10
    else c as int - 'A' as int + 10
  }

  /** The upper-case hex digit that Go's escaper writes for `n`. */
  function UpperHex(n: nat): (c: char)
    requires n < 16
    ensures IsHex(c) && Unhex(c) == n
  {
    if n < 10 then ('0' as int + n) as char else ('A' as int + n - 10) as char
  }

  /** Every `%` of `s` is followed by two hex digits. */
  predicate WellEscaped(s: string)
  {
    forall i :: 0 <= i < |s| && s[i] == '%' ==> i + 2 < |s| && IsHex(s[i + 1]) && IsHex(s[i + 2])
  }

  /** url.EscapeError: the malformed escape, at most three bytes from its `%`. */
  datatype EscapeError = EscapeError(text: string)

  /**
    url.QueryUnescape: `%XY` becomes the byte with hex value XY and `+` becomes a space.
    It fails, naming the first malformed escape, exactly when some `%` is not followed
    by two hex digits.
  */
  function QueryUnescape(s: string): (r: Result<string, EscapeError>)
    ensures r.Success? <==> WellEscaped(s)
    ensures r.Success? ==> |r.value| <= |s|
    ensures '%' !in s && '+' !in s ==> r == Success(s)
    decreases |s|
  {
    if s == [] then Success([])
    else if s[0] == '%' then
      if |s| < 3 || !IsHex(s[1]) || !IsHex(s[2]) then
        Failure(EscapeError(if |s| < 3 then s else s[..3]))
      else
        assert WellEscaped(s) <==> WellEscaped(s[3..]) by {
          if WellEscaped(s[3..]) {
            forall i | 3 <= i < |s| && s[i] == '%'
              ensures i + 2 < |s| && IsHex(s[i + 1]) && IsHex(s[i + 2])
            {
              assert s[3..][i - 3] == '%';
            }
          }
        }
        match QueryUnescape(s[3..])
        case Failure(e) => Failure(e)
        case Success(t) => Success([(Unhex(s[1]) * 16 + Unhex(s[2])) as char] + t)
    else
      assert WellEscaped(s) <==> WellEscaped(s[1..]) by {
        if WellEscaped(s[1..]) {
          forall i | 1 <= i < |s| && s[i] == '%'
            ensures i + 2 < |s| && IsHex(s[i + 1]) && IsHex(s[i + 2])
          {
            assert s[1..][i - 1] == '%';
          }
        }
      }
      assert s == [s[0]] + s[1..];
      match QueryUnescape(s[1..])
      case Failure(e) => Failure(e)
      case Success(t) => Success([if s[0] == '+' then ' ' else s[0]] + t)
  }

  /** Bytes that url.QueryEscape writes as they are. */
  predicate Unreserved(c: char)
  {
    'a' <= c <= 'z' || 'A' <= c <= 'Z' || '0' <= c <= '9' || c == '-' || c == '_' || c == '.' || c == '~'
  }

  /** How url.QueryEscape writes one byte: as itself, as `+` for a space, or as `%XY`. */
  function EscapeByte(c: char): string
    requires c as int < 256
  {
    if Unreserved(c) then [c]
    else if c == ' ' then "+"
    else ['%', UpperHex(c as int / 16), UpperHex(c as int % 16)]
  }

  /** url.QueryEscape: the escaped form of a byte string, free of `&`, `=`, `;`, `+` and `#`. */
  function QueryEscape(s: string): (r: string)
    requires IsBytes(s)
    ensures '&' !in r && '=' !in r && ';' !in r && '#' !in r
    decreases |s|
  {
    if s == [] then [] else EscapeByte(s[0]) + QueryEscape(s[1..])
  }

  /** A `%XY` escape written by EscapeByte decodes back to its byte. */
  lemma UnescapePercent(c: char, rest: string, t: string)
    requires c as int < 256 && !Unreserved(c) && c != ' '
    requires QueryUnescape(rest) == Success(t)
    ensures QueryUnescape(EscapeByte(c) + rest) == Success([c] + t)
  {
    var hi, lo := c as int / 16, c as int % 16;
    var e := EscapeByte(c) + rest;
    assert e[0] == '%' && e[1] == UpperHex(hi) && e[2] == UpperHex(lo);
    assert e[3..] == rest;
    assert Unhex(e[1]) * 16 + Unhex(e[2]) == c as int;
  }

  /** Each escaped byte decodes back to itself, whatever follows it. */
  lemma UnescapeEscapedByte(c: char, rest: string, t: string)
    requires c as int < 256
    requires QueryUnescape(rest) == Success(t)
    ensures QueryUnescape(EscapeByte(c) + rest) == Success([c] + t)
  {
    if Unreserved(c) || c == ' ' {
      assert (EscapeByte(c) + rest)[0] == EscapeByte(c)[0];
      assert (EscapeByte(c) + rest)[1..] == rest;
    } else {
      UnescapePercent(c, rest, t);
    }
  }

  /** Unescaping undoes escaping. */
  lemma {:induction false} UnescapeEscape(s: string)
    requires IsBytes(s)
    ensures QueryUnescape(QueryEscape(s)) == Success(s)
    decreases |s|
  {
    if s != [] {
      assert s[0] as int < 256;
      UnescapeEscape(s[1..]);
      UnescapeEscapedByte(s[0], QueryEscape(s[1..]), s[1..]);
      assert s == [s[0]] + s[1..];
    }
  }

  predicate IsPlain(s: string)
  {
    forall i :: 0 <= i < |s| ==> Unreserved(s[i])
  }

  /** Text made of unreserved bytes only is written as it is. */
  lemma {:induction false} EscapePlain(s: string)
    requires IsPlain(s)
    ensures IsBytes(s) && QueryEscape(s) == s
    decreases |s|
  {
    if s != [] {
      EscapePlain(s[1..]);
      assert s == [s[0]] + s[1..];
    }
  }

  /**
    The raw query that url.Parse records (section 3.4 of RFC 3986): the text after the
    first `?` in the part before the first `#`, or "" when that part has no `?`.
  */
  function RawQuery(path: string): (q: string)
    ensures '#' !in q
    ensures '?' !in path ==> q == ""
  {
    var beforeFragment := Cut(path, '#').before;
    Cut(beforeFragment, '?').after
  }

  /** With a `?` in it, the raw query is what lies between the first `?` and the fragment. */
  lemma RawQueryOf(pre: string, q: string, fragment: string)
    requires '?' !in pre && '#' !in pre && '#' !in q
    ensures RawQuery(pre + "?" + q) == q
    ensures RawQuery(pre + "?" + q + "#" + fragment) == q
  {
    var u := pre + "?" + q;
    assert '#' !in u;
    CutAt(u, '#', fragment);
    CutAt(pre, '?', q);
  }

  /** Without a `?` before the fragment, the raw query is empty. */
  lemma RawQueryAbsent(pre: string, fragment: string)
    requires '?' !in pre && '#' !in pre
    ensures RawQuery(pre) == ""
    ensures RawQuery(pre + "#" + fragment) == ""
  {
    CutAt(pre, '#', fragment);
  }

  /** url.Values: for each key, the values the query gives it, in query order. */
  type Values = map<string, seq<string>>

  function ValuesFor(m: Values, key: string): seq<string>
  {
    if key in m then m[key] else []
  }

  /** Values.Get: the first value of `key`, or "" when it has none. */
  function Get(m: Values, key: string): (v: string)
    ensures ValuesFor(m, key) == [] ==> v == ""
    ensures ValuesFor(m, key) != [] ==> v == ValuesFor(m, key)[0]
  {
    if key in m && |m[key]| > 0 then m[key][0] else ""
  }

  /** `m[key] = append(m[key], value)`, as parseQuery records a pair. */
  function Add(m: Values, key: string, value: string): (r: Values)
    ensures ValuesFor(r, key) == ValuesFor(m, key) + [value]
    ensures forall k :: k != key ==> ValuesFor(r, k) == ValuesFor(m, k)
  {
    m[key := ValuesFor(m, key) + [value]]
  }

  /** The error url.ParseQuery reports. */
  datatype QueryError = SemicolonSeparator | InvalidEscape(e: EscapeError)

  /** What parseQuery makes of one `&`-separated piece of a query. */
  datatype Segment =
    | Blank
    | HasSemicolon
    | Undecodable(e: EscapeError)
    | Pair(key: string, value: string)

  /**
    One piece: a `;` anywhere makes it an error, an empty piece is skipped, otherwise it
    is cut at its first `=` and key and value are unescaped, key first.
  */
  function ClassifySegment(seg: string): (r: Segment)
    ensures r.HasSemicolon? <==> ';' in seg
    ensures r.Blank? <==> seg == ""
    ensures r.Undecodable? <==>
      (';' !in seg && seg != "" && !(WellEscaped(Cut(seg, '=').before) && WellEscaped(Cut(seg, '=').after)))
  {
    if ';' in seg then HasSemicolon
    else if seg == "" then Blank
    else
      var kv := Cut(seg, '=');
      match QueryUnescape(kv.before)
      case Failure(e) => Undecodable(e)
      case Success(key) =>
        match QueryUnescape(kv.after)
        case Failure(e) => Undecodable(e)
        case Success(value) => Pair(key, value)
  }

  datatype Parsed = Parsed(values: Values, err: Option<QueryError>)

  /**
    The loop of Go's parseQuery: cut the query at its first `&`, handle the piece before
    it and go on with the rest until nothing is left. A `;` error replaces any earlier
    error; an escape error is kept only when there was none before. Pieces after an
    error are still recorded.
  */
  function ParseQueryFrom(m: Values, q: string, err: Option<QueryError>): (r: Parsed)
    ensures err.Some? ==> r.err.Some?
    ensures forall key :: ValuesFor(m, key) <= ValuesFor(r.values, key)
    decreases |q|
  {
    if q == "" then Parsed(m, err)
    else
      var c := Cut(q, '&');
      match ClassifySegment(c.before)
      case HasSemicolon => ParseQueryFrom(m, c.after, Some(SemicolonSeparator))
      case Blank => ParseQueryFrom(m, c.after, err)
      case Undecodable(e) => ParseQueryFrom(m, c.after, if err.None? then Some(InvalidEscape(e)) else err)
      case Pair(key, value) => ParseQueryFrom(Add(m, key, value), c.after, err)
  }

  /**
    url.ParseQuery gives each key the decoded values of the pieces with that key, in
    query order, and reports an error exactly when some piece holds a `;` or a
    malformed escape.
  */
  function ParseQuery(q: string): (r: Parsed)
    ensures forall key :: ValuesFor(r.values, key) == Lookup(PairsOf(Segments(q)), key)
    ensures r.err.None? <==> !AnyFailing(Segments(q))
  {
    var r := ParseQueryFrom(map[], q, None);
    ParseQueryFromSegments(map[], q, None);
    assert forall key :: ValuesFor(r.values, key) == Lookup(PairsOf(Segments(q)), key) by {
      forall key
        ensures ValuesFor(r.values, key) == Lookup(PairsOf(Segments(q)), key)
      {
        AddAllValues(map[], PairsOf(Segments(q)), key);
      }
    }
    r
  }

  // A reference reading of a query: split it at every `&`, classify each piece on its
  // own, and keep the decoded pairs in order.

  function Segments(q: string): seq<string>
  {
    Split(q, '&')
  }

  function PairsOf(segs: seq<string>): seq<(string, string)>
  {
    if segs == [] then []
    else
      var rest := PairsOf(segs[1..]);
      match ClassifySegment(segs[0])
      case Pair(key, value) => [(key, value)] + rest
      case _ => rest
  }

  predicate IsFailing(seg: string)
  {
    ClassifySegment(seg).HasSemicolon? || ClassifySegment(seg).Undecodable?
  }

  predicate AnyFailing(segs: seq<string>)
  {
    exists i :: 0 <= i < |segs| && IsFailing(segs[i])
  }

  /** The values given for `key` in a list of pairs, in order. */
  function Lookup(ps: seq<(string, string)>, key: string): seq<string>
  {
    if ps == [] then []
    else (if ps[0].0 == key then [ps[0].1] else []) + Lookup(ps[1..], key)
  }

  function AddAll(m: Values, ps: seq<(string, string)>): Values
    decreases ps
  {
    if ps == [] then m else AddAll(Add(m, ps[0].0, ps[0].1), ps[1..])
  }

  /** Adding pairs one by one appends, for each key, that key's values in order. */
  lemma {:induction false} AddAllValues(m: Values, ps: seq<(string, string)>, key: string)
    ensures ValuesFor(AddAll(m, ps), key) == ValuesFor(m, key) + Lookup(ps, key)
    decreases ps
  {
    if ps != [] {
      var m' := Add(m, ps[0].0, ps[0].1);
      AddAllValues(m', ps[1..], key);
      if ps[0].0 == key {
        assert ValuesFor(m', key) == ValuesFor(m, key) + [ps[0].1];
      } else {
        assert ValuesFor(m', key) == ValuesFor(m, key);
      }
    }
  }

  lemma AnyFailingCons(seg: string, segs: seq<string>)
    ensures AnyFailing([seg] + segs) <==> IsFailing(seg) || AnyFailing(segs)
  {
    var all := [seg] + segs;
    if AnyFailing(segs) {
      var i :| 0 <= i < |segs| && IsFailing(segs[i]);
      assert all[i + 1] == segs[i];
    }
    if AnyFailing(all) {
      var i :| 0 <= i < |all| && IsFailing(all[i]);
      if i > 0 {
        assert segs[i - 1] == all[i];
      }
    }
    assert all[0] == seg;
  }

  /** The piece before the first `&`, then the pieces of the rest. */
  lemma SegmentsCons(q: string)
    requires q != ""
    ensures var c := Cut(q, '&');
      PairsOf(Segments(q)) == PairsOf([c.before] + Segments(c.after)) &&
      (AnyFailing(Segments(q)) <==> AnyFailing([c.before] + Segments(c.after)))
  {
  }

  /** Go's cut-as-you-go loop reads a query exactly as the reference reading does. */
  lemma {:induction false} ParseQueryFromSegments(m: Values, q: string, err: Option<QueryError>)
    ensures ParseQueryFrom(m, q, err).values == AddAll(m, PairsOf(Segments(q)))
    ensures ParseQueryFrom(m, q, err).err.Some? <==> err.Some? || AnyFailing(Segments(q))
    decreases |q|
  {
    if q == "" {
      assert Segments(q) == [""];
      assert !IsFailing("");
      assert PairsOf([""]) == [];
    } else {
      var c := Cut(q, '&');
      SegmentsCons(q);
      AnyFailingCons(c.before, Segments(c.after));
      var segs := [c.before] + Segments(c.after);
      assert segs[1..] == Segments(c.after);
      assert segs[0] == c.before;
      match ClassifySegment(c.before)
      case HasSemicolon =>
        ParseQueryFromSegments(m, c.after, Some(SemicolonSeparator));
      case Blank =>
        ParseQueryFromSegments(m, c.after, err);
      case Undecodable(e) =>
        ParseQueryFromSegments(m, c.after, if err.None? then Some(InvalidEscape(e)) else err);
      case Pair(key, value) =>
        ParseQueryFromSegments(Add(m, key, value), c.after, err);
    }
  }

  /** Values.Get on a parsed query: the first value given for `key`, or "". */
  lemma GetBySegments(q: string, key: string)
    ensures var vs := Lookup(PairsOf(Segments(q)), key);
      Get(ParseQuery(q).values, key) == if vs == [] then "" else vs[0]
  {
  }

  predicate PairIsBytes(p: (string, string))
  {
    IsBytes(p.0) && IsBytes(p.1)
  }

  /** A pair written as `key=value`, both escaped as url.QueryEscape does. */
  function EncodePair(p: (string, string)): string
    requires PairIsBytes(p)
  {
    QueryEscape(p.0) + "=" + QueryEscape(p.1)
  }

  function EncodePairs(ps: seq<(string, string)>): (segs: seq<string>)
    requires forall i :: 0 <= i < |ps| ==> PairIsBytes(ps[i])
    ensures |segs| == |ps|
    ensures forall i :: 0 <= i < |ps| ==> segs[i] == EncodePair(ps[i])
  {
    if ps == [] then [] else [EncodePair(ps[0])] + EncodePairs(ps[1..])
  }

  lemma ClassifyEncoded(p: (string, string))
    requires PairIsBytes(p)
    ensures ClassifySegment(EncodePair(p)) == Pair(p.0, p.1)
  {
    var k, v := QueryEscape(p.0), QueryEscape(p.1);
    var seg := k + "=" + v;
    assert seg[|k|] == '=';
    assert ';' !in seg;
    CutAt(k, '=', v);
    UnescapeEscape(p.0);
    UnescapeEscape(p.1);
  }

  lemma {:induction false} PairsOfEncoded(ps: seq<(string, string)>)
    requires forall i :: 0 <= i < |ps| ==> PairIsBytes(ps[i])
    ensures PairsOf(EncodePairs(ps)) == ps
    ensures !AnyFailing(EncodePairs(ps))
  {
    if ps != [] {
      var segs := EncodePairs(ps);
      PairsOfEncoded(ps[1..]);
      ClassifyEncoded(ps[0]);
      assert segs == [EncodePair(ps[0])] + EncodePairs(ps[1..]);
      assert segs[1..] == EncodePairs(ps[1..]);
      AnyFailingCons(segs[0], segs[1..]);
    }
  }

  /**
    Round trip: a query written as `&`-joined escaped pairs parses without error, and
    each key gets back exactly its values, in order.
  */
  lemma ParseEncodedQuery(ps: seq<(string, string)>, key: string)
    requires forall i :: 0 <= i < |ps| ==> PairIsBytes(ps[i])
    ensures ParseQuery(Join(EncodePairs(ps), '&')).err.None?
    ensures ValuesFor(ParseQuery(Join(EncodePairs(ps), '&')).values, key) == Lookup(ps, key)
  {
    var segs := EncodePairs(ps);
    var q := Join(segs, '&');
    if ps == [] {
      assert q == "";
        assert Segments(q) == [""];
      assert !IsFailing("");
      assert PairsOf([""]) == [];
    } else {
      forall i | 0 <= i < |segs| ensures '&' !in segs[i] {
        assert segs[i] == EncodePair(ps[i]);
      }
      SplitJoin(segs, '&');
      PairsOfEncoded(ps);
      }
  }
}
