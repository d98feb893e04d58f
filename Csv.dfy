/**
 * The quote-aware field splitter of the products service (`simpleCsvSplit`,
 * src/products/products.service.ts). A double quote only toggles an
 * "inside quotes" flag and is never copied; a comma outside quotes ends a
 * field; every field is trimmed; a final field is emitted only when its
 * untrimmed text is non-empty.
 */
module Csv {
  import opened JsString

  const Quote := '"'
  const Comma := ','

  /**
   * The untrimmed segments of `s` when the scan starts with the flag `inQuotes`:
   * a quote flips the flag and is dropped, a comma outside quotes closes the
   * current segment, and every other character (a comma inside quotes too) is
   * appended to the current segment. There is always a current, last segment.
   */
  function Segments(s: string, inQuotes: bool): (r: seq<string>)
    ensures |r| >= 1
    decreases |s|
  {
    if s == [] then [""]
    else if s[0] == Quote then Segments(s[1..], !inQuotes)
    else if s[0] == Comma && !inQuotes then [""] + Segments(s[1..], inQuotes)
    else
      var t := Segments(s[1..], inQuotes);
      [[s[0]] + t[0]] + t[1..]
  }

  function Last(ss: seq<string>): string
    requires |ss| >= 1
  {
    ss[|ss| - 1]
  }

  /** The segment after the last comma outside quotes, quotes removed and untrimmed. */
  function FinalSegment(line: string): string {
    Last(Segments(line, false))
  }

  /** Each string trimmed (`String.prototype.trim`), in order. */
  function TrimAll(ss: seq<string>): (r: seq<string>)
    ensures |r| == |ss|
    ensures forall k :: 0 <= k < |ss| ==> r[k] == Trim(ss[k])
  {
    seq(|ss|, k requires 0 <= k < |ss| => Trim(ss[k]))
  }

  lemma TrimAllAppend(ss: seq<string>, s: string)
    ensures TrimAll(ss + [s]) == TrimAll(ss) + [Trim(s)]
  {
    assert forall k :: 0 <= k < |ss| ==> (ss + [s])[k] == ss[k];
  }

  /**
   * What `simpleCsvSplit` returns for `line`: the trimmed segments of the line,
   * without the final segment when that segment is empty before trimming.
   */
  function Fields(line: string): seq<string> {
    var segs := Segments(line, false);
    TrimAll(if FinalSegment(line) == "" then segs[..|segs| - 1] else segs)
  }

  /** The segments already closed, then the open buffer glued to the first of the segments still to come. */
  function Glue(closed: seq<string>, current: string, rest: seq<string>): seq<string>
    requires |rest| >= 1
  {
    closed + [current + rest[0]] + rest[1..]
  }

  lemma SegmentsAt(s: string, i: nat, inQuotes: bool)
    requires i < |s|
    ensures Segments(s[i..], inQuotes)
            == if s[i] == Quote then Segments(s[i + 1..], !inQuotes)
               else if s[i] == Comma && !inQuotes then [""] + Segments(s[i + 1..], inQuotes)
               else [[s[i]] + Segments(s[i + 1..], inQuotes)[0]] + Segments(s[i + 1..], inQuotes)[1..]
  {
    assert s[i..][0] == s[i] && s[i..][1..] == s[i + 1..];
  }

  lemma GlueComma(closed: seq<string>, current: string, rest: seq<string>)
    requires |rest| >= 1
    ensures Glue(closed, current, [""] + rest) == Glue(closed + [current], "", rest)
  {
    assert current + "" == current;
    assert "" + rest[0] == rest[0];
    assert ([""] + rest)[1..] == rest;
    assert [rest[0]] + rest[1..] == rest;
  }

  lemma GlueChar(closed: seq<string>, current: string, c: char, rest: seq<string>)
    requires |rest| >= 1
    ensures Glue(closed, current, [[c] + rest[0]] + rest[1..]) == Glue(closed, current + [c], rest)
  {
    assert current + ([c] + rest[0]) == (current + [c]) + rest[0];
  }

  /**
   * `simpleCsvSplit`: one pass over the characters with a current-field buffer and
   * the in-quotes flag. The invariant says that the segments of the whole line are
   * those already closed, then the current buffer glued to the first segment of the
   * rest of the line scanned from the current flag, then the rest's other segments.
   */
  method SimpleCsvSplit(line: string) returns (result: seq<string>)
    ensures result == Fields(line)
  {
    result := [];
    var current := "";
    var inQuotes := false;
    ghost var closed: seq<string> := [];
    assert line[0..] == line;
    assert current + Segments(line, false)[0] == Segments(line, false)[0];
    assert [Segments(line, false)[0]] + Segments(line, false)[1..] == Segments(line, false);
    for i := 0 to |line|
      invariant result == TrimAll(closed)
      invariant Segments(line, false) == Glue(closed, current, Segments(line[i..], inQuotes))
    {
      var c := line[i];
      SegmentsAt(line, i, inQuotes);
      if c == Quote {
        inQuotes := !inQuotes;
        continue;
      }
      if c == Comma && !inQuotes {
        GlueComma(closed, current, Segments(line[i + 1..], inQuotes));
        TrimAllAppend(closed, current);
        result := result + [Trim(current)];
        closed := closed + [current];
        current := "";
      } else {
        GlueChar(closed, current, c, Segments(line[i + 1..], inQuotes));
        current := current + [c];
      }
    }
    assert line[|line|..] == [];
    assert current + "" == current;
    assert Segments(line, false) == closed + [current];
    if |current| > 0 {
      TrimAllAppend(closed, current);
      result := result + [Trim(current)];
      closed := closed + [current];
    }
    assert closed == if FinalSegment(line) == "" then Segments(line, false)[..|Segments(line, false)| - 1]
                     else Segments(line, false);
  }

  /** The line with every double quote removed. */
  function RemoveQuotes(s: string): (r: string)
    ensures Quote !in r
    decreases |s|
  {
    if s == [] then "" else (if s[0] == Quote then "" else [s[0]]) + RemoveQuotes(s[1..])
  }

  /** The number of commas met outside quotes, the scan starting with the flag `inQuotes`. */
  function UnquotedCommas(s: string, inQuotes: bool): nat
    decreases |s|
  {
    if s == [] then 0
    else if s[0] == Quote then UnquotedCommas(s[1..], !inQuotes)
    else (if s[0] == Comma && !inQuotes then 1 else 0) + UnquotedCommas(s[1..], inQuotes)
  }

  /** The number of commas met inside quotes, the scan starting with the flag `inQuotes`. */
  function QuotedCommas(s: string, inQuotes: bool): nat
    decreases |s|
  {
    if s == [] then 0
    else if s[0] == Quote then QuotedCommas(s[1..], !inQuotes)
    else (if s[0] == Comma && inQuotes then 1 else 0) + QuotedCommas(s[1..], inQuotes)
  }

  function CountChar(s: string, c: char): nat
    decreases |s|
  {
    if s == [] then 0 else (if s[0] == c then 1 else 0) + CountChar(s[1..], c)
  }

  /** The commas in all of `ss` together. */
  function CommasIn(ss: seq<string>): nat
    decreases |ss|
  {
    if ss == [] then 0 else CountChar(ss[0], Comma) + CommasIn(ss[1..])
  }

  lemma {:induction false} CountCharAppend(a: string, b: string, c: char)
    ensures CountChar(a + b, c) == CountChar(a, c) + CountChar(b, c)
    decreases |a|
  {
    if a == [] {
      assert a + b == b;
    } else {
      assert (a + b)[1..] == a[1..] + b;
      CountCharAppend(a[1..], b, c);
    }
  }

  /** A double quote is never copied into a segment. */
  lemma {:induction false} SegmentsQuoteFree(s: string, inQuotes: bool)
    ensures forall k :: 0 <= k < |Segments(s, inQuotes)| ==> Quote !in Segments(s, inQuotes)[k]
    decreases |s|
  {
    if s != [] {
      if s[0] == Quote {
        SegmentsQuoteFree(s[1..], !inQuotes);
      } else {
        SegmentsQuoteFree(s[1..], inQuotes);
      }
    }
  }

  /**
   * Putting a comma back between neighbouring segments gives the line without its
   * quotes: the separators are exactly the commas outside quotes, and every other
   * character except a quote, a comma inside quotes included, stays inside a segment,
   * in order.
   */
  lemma {:induction false} SegmentsJoin(s: string, inQuotes: bool)
    ensures Join(Segments(s, inQuotes), Comma) == RemoveQuotes(s)
    decreases |s|
  {
    if s != [] {
      if s[0] == Quote {
        SegmentsJoin(s[1..], !inQuotes);
      } else {
        SegmentsJoin(s[1..], inQuotes);
        var t := Segments(s[1..], inQuotes);
        if s[0] == Comma && !inQuotes {
          assert ([""] + t)[1..] == t;
        } else {
          JoinConsHead(s[0], t[0], t[1..], Comma);
          assert [t[0]] + t[1..] == t;
        }
      }
    }
  }

  /** One segment per comma outside quotes, plus the last one. */
  lemma {:induction false} SegmentsCount(s: string, inQuotes: bool)
    ensures |Segments(s, inQuotes)| == UnquotedCommas(s, inQuotes) + 1
    decreases |s|
  {
    if s != [] {
      if s[0] == Quote {
        SegmentsCount(s[1..], !inQuotes);
      } else {
        SegmentsCount(s[1..], inQuotes);
      }
    }
  }

  /** Every comma inside quotes ends up inside a segment. */
  lemma {:induction false} SegmentsKeepQuotedCommas(s: string, inQuotes: bool)
    ensures CommasIn(Segments(s, inQuotes)) == QuotedCommas(s, inQuotes)
    decreases |s|
  {
    if s != [] {
      if s[0] == Quote {
        SegmentsKeepQuotedCommas(s[1..], !inQuotes);
      } else {
        SegmentsKeepQuotedCommas(s[1..], inQuotes);
        var t := Segments(s[1..], inQuotes);
        if s[0] == Comma && !inQuotes {
          assert ([""] + t)[1..] == t;
        } else {
          var r := [[s[0]] + t[0]] + t[1..];
          assert r[1..] == t[1..];
          CountCharAppend([s[0]], t[0], Comma);
          assert CommasIn(t) == CountChar(t[0], Comma) + CommasIn(t[1..]);
        }
      }
    }
  }

  /** The in-quotes flag after scanning `s` from `inQuotes`: every double quote flips it. */
  function QuoteStateAfter(s: string, inQuotes: bool): bool
    decreases |s|
  {
    if s == [] then inQuotes else QuoteStateAfter(s[1..], if s[0] == Quote then !inQuotes else inQuotes)
  }

  /** All segments but the last. */
  function Init(ss: seq<string>): seq<string>
    requires |ss| >= 1
  {
    ss[..|ss| - 1]
  }

  lemma GlueCons(first: string, closed: seq<string>, current: string, rest: seq<string>)
    requires |rest| >= 1
    ensures [first] + Glue(closed, current, rest) == Glue([first] + closed, current, rest)
  {
  }

  /** A character put in front of the first glued segment. */
  lemma GlueFront(c: char, closed: seq<string>, current: string, rest: seq<string>)
    requires |rest| >= 1
    ensures var g := Glue(closed, current, rest);
            [[c] + g[0]] + g[1..]
            == if closed == [] then Glue([], [c] + current, rest)
               else Glue([[c] + closed[0]] + closed[1..], current, rest)
  {
    if closed == [] {
      GlueFrontOpen(c, current, rest);
    } else {
      GlueFrontClosed(c, closed, current, rest);
    }
  }

  lemma GlueFrontOpen(c: char, current: string, rest: seq<string>)
    requires |rest| >= 1
    ensures var g := Glue([], current, rest);
            [[c] + g[0]] + g[1..] == Glue([], [c] + current, rest)
  {
    var g := Glue([], current, rest);
    assert g == [current + rest[0]] + rest[1..];
    assert [c] + (current + rest[0]) == ([c] + current) + rest[0];
  }

  lemma GlueFrontClosed(c: char, closed: seq<string>, current: string, rest: seq<string>)
    requires |rest| >= 1 && closed != []
    ensures var g := Glue(closed, current, rest);
            [[c] + g[0]] + g[1..] == Glue([[c] + closed[0]] + closed[1..], current, rest)
  {
    var g := Glue(closed, current, rest);
    var tail := [current + rest[0]] + rest[1..];
    assert g == closed + tail;
    assert g[0] == closed[0];
    assert g[1..] == closed[1..] + tail;
    var h := [c] + closed[0];
    assert Glue([h] + closed[1..], current, rest) == ([h] + closed[1..]) + tail;
    assert ([h] + closed[1..]) + tail == [h] + (closed[1..] + tail);
  }

  /** Where `Init` and `Last` go when a character is put in front of the first segment. */
  lemma InitLastFront(c: char, ss: seq<string>)
    requires |ss| >= 1
    ensures var front := [[c] + ss[0]] + ss[1..];
            && Init(front) == (if |ss| == 1 then [] else [[c] + Init(ss)[0]] + Init(ss)[1..])
            && Last(front) == (if |ss| == 1 then [c] + ss[0] else Last(ss))
            && (Init(ss) == [] <==> |ss| == 1)
  {
  }

  /**
   * Scanning is a left-to-right pass: the segments of `a + t` are those of `a`, with
   * the last, still open, segment of `a` glued to the first segment of `t`, where `t`
   * is scanned from the flag that `a` ends with. So every comma of the line is placed
   * by the quotes before it.
   */
  lemma {:induction false} SegmentsAppend(a: string, t: string, inQuotes: bool)
    ensures Segments(a + t, inQuotes)
            == Glue(Init(Segments(a, inQuotes)), Last(Segments(a, inQuotes)), Segments(t, QuoteStateAfter(a, inQuotes)))
    decreases |a|
  {
    var st := Segments(t, QuoteStateAfter(a, inQuotes));
    if a == [] {
      assert a + t == t;
      assert "" + st[0] == st[0];
      assert [st[0]] + st[1..] == st;
    } else {
      var c := a[0];
      assert (a + t)[0] == c && (a + t)[1..] == a[1..] + t;
      if c == Quote {
        SegmentsAppend(a[1..], t, !inQuotes);
      } else if c == Comma && !inQuotes {
        SegmentsAppend(a[1..], t, inQuotes);
        var rest := Segments(a[1..], inQuotes);
        GlueCons("", Init(rest), Last(rest), st);
        assert Init([""] + rest) == [""] + Init(rest);
      } else {
        SegmentsAppend(a[1..], t, inQuotes);
        var rest := Segments(a[1..], inQuotes);
        GlueFront(c, Init(rest), Last(rest), st);
        InitLastFront(c, rest);
      }
    }
  }

  /**
   * A comma reached outside quotes splits the line there: the segments before it,
   * then the segments after it scanned from outside quotes.
   */
  lemma SegmentsSplitAtComma(a: string, b: string, inQuotes: bool)
    requires !QuoteStateAfter(a, inQuotes)
    ensures Segments(a + [Comma] + b, inQuotes) == Segments(a, inQuotes) + Segments(b, false)
  {
    var sa := Segments(a, inQuotes);
    assert a + [Comma] + b == a + ([Comma] + b);
    SegmentsAppend(a, [Comma] + b, inQuotes);
    assert ([Comma] + b)[1..] == b;
    var sb := Segments(b, false);
    assert Segments([Comma] + b, false) == [""] + sb;
    GlueComma(Init(sa), Last(sa), sb);
    GlueEmpty(Init(sa) + [Last(sa)], sb);
    assert Init(sa) + [Last(sa)] == sa;
  }

  lemma GlueEmpty(closed: seq<string>, rest: seq<string>)
    requires |rest| >= 1
    ensures Glue(closed, "", rest) == closed + rest
  {
    assert "" + rest[0] == rest[0];
    assert [rest[0]] + rest[1..] == rest;
  }

  /**
   * A comma reached inside quotes stays in the open segment, which goes on with
   * the text after it scanned from inside quotes.
   */
  lemma SegmentsQuotedComma(a: string, b: string, inQuotes: bool)
    requires QuoteStateAfter(a, inQuotes)
    ensures Segments(a + [Comma] + b, inQuotes)
            == Glue(Init(Segments(a, inQuotes)), Last(Segments(a, inQuotes)) + [Comma], Segments(b, true))
  {
    var sa := Segments(a, inQuotes);
    assert a + [Comma] + b == a + ([Comma] + b);
    SegmentsAppend(a, [Comma] + b, inQuotes);
    assert ([Comma] + b)[1..] == b;
    GlueChar(Init(sa), Last(sa), Comma, Segments(b, true));
  }

  /** `"a,b",c` splits after the closing quote, not at the quoted comma. */
  lemma SegmentsQuotedCommaExample()
    ensures Segments("\"a,b\",c", false) == ["a,b", "c"]
  {
    var open := [Quote] + "a";
    var close := "b" + [Quote];
    var field := open + [Comma] + close;
    assert field + [Comma] + "c" == "\"a,b\",c";
    SegmentsOneChar('a', true);
    SegmentsQuoteFirst("a", false);
    assert Segments(open, false) == ["a"];
    assert QuoteStateAfter(open, false) by {
      QuoteStateAppend([Quote], "a", false);
      QuoteStateOne(Quote, false);
      QuoteStateOne('a', true);
    }
    SegmentsQuoteFirst("", true);
    assert [Quote] + "" == [Quote];
    assert Segments([Quote], true) == [""];
    assert close == ['b'] + [Quote];
    SegmentsCharFirst('b', [Quote], true);
    assert ['b'] + "" == "b";
    assert Segments(close, true) == ["b"];
    SegmentsQuotedComma(open, close, false);
    assert Init(["a"]) == [] && Last(["a"]) == "a";
    assert "a" + [Comma] + "b" == "a,b";
    assert Segments(field, false) == ["a,b"];
    assert !QuoteStateAfter(field, false) by {
      QuoteStateAppend(open + [Comma], close, false);
      QuoteStateAppend(open, [Comma], false);
      QuoteStateOne(Comma, true);
      QuoteStateAppend("b", [Quote], true);
      QuoteStateOne('b', true);
      QuoteStateOne(Quote, true);
    }
    SegmentsOneChar('c', false);
    SegmentsSplitAtComma(field, "c", false);
  }

  lemma SegmentsQuoteFirst(s: string, inQuotes: bool)
    ensures Segments([Quote] + s, inQuotes) == Segments(s, !inQuotes)
  {
    assert ([Quote] + s)[1..] == s;
  }

  lemma SegmentsCharFirst(c: char, s: string, inQuotes: bool)
    requires c != Quote && (c != Comma || inQuotes)
    ensures Segments([c] + s, inQuotes) == [[c] + Segments(s, inQuotes)[0]] + Segments(s, inQuotes)[1..]
  {
    assert ([c] + s)[0] == c && ([c] + s)[1..] == s;
  }

  lemma SegmentsOneChar(c: char, inQuotes: bool)
    requires c != Quote && (c != Comma || inQuotes)
    ensures Segments([c], inQuotes) == [[c]]
  {
    SegmentsCharFirst(c, [], inQuotes);
    assert [c] + [] == [c];
    assert [c] + "" == [c];
  }

  lemma QuoteStateOne(c: char, inQuotes: bool)
    ensures QuoteStateAfter([c], inQuotes) == if c == Quote then !inQuotes else inQuotes
  {
    assert [c][1..] == [];
  }

  lemma {:induction false} QuoteStateAppend(a: string, b: string, inQuotes: bool)
    ensures QuoteStateAfter(a + b, inQuotes) == QuoteStateAfter(b, QuoteStateAfter(a, inQuotes))
    decreases |a|
  {
    if a == [] {
      assert a + b == b;
    } else {
      assert (a + b)[0] == a[0] && (a + b)[1..] == a[1..] + b;
      QuoteStateAppend(a[1..], b, if a[0] == Quote then !inQuotes else inQuotes);
    }
  }

  /** No field returned by `simpleCsvSplit` contains a double quote. */
  lemma FieldsQuoteFree(line: string)
    ensures forall k :: 0 <= k < |Fields(line)| ==> Quote !in Fields(line)[k]
  {
    SegmentsQuoteFree(line, false);
    var segs := Segments(line, false);
    forall k | 0 <= k < |Fields(line)| ensures Quote !in Fields(line)[k] {
      TrimStrips(segs[k]);
    }
  }

  /** Every field returned by `simpleCsvSplit` is trimmed. */
  lemma FieldsTrimmed(line: string)
    ensures forall k :: 0 <= k < |Fields(line)| ==> IsTrimmed(Fields(line)[k])
  {
  }

  /**
   * `simpleCsvSplit` returns one field per comma outside quotes, plus one more
   * exactly when the text after the last such comma is non-empty.
   */
  lemma FieldsCount(line: string)
    ensures |Fields(line)| == UnquotedCommas(line, false) + (if FinalSegment(line) == "" then 0 else 1)
  {
    SegmentsCount(line, false);
  }

  /** A field written between double quotes. */
  function QuoteField(f: string): string {
    [Quote] + f + [Quote]
  }

  /** The fields, each between double quotes, separated by commas. */
  function QuotedLine(fs: seq<string>): string
    requires |fs| >= 1
    decreases |fs|
  {
    if |fs| == 1 then QuoteField(fs[0]) else QuoteField(fs[0]) + [Comma] + QuotedLine(fs[1..])
  }

  lemma {:induction false} QuotedRun(f: string, t: string)
    requires Quote !in f
    ensures Segments(f + t, true) == [f + Segments(t, true)[0]] + Segments(t, true)[1..]
    decreases |f|
  {
    if f == [] {
      assert f + t == t;
      assert f + Segments(t, true)[0] == Segments(t, true)[0];
      assert [Segments(t, true)[0]] + Segments(t, true)[1..] == Segments(t, true);
    } else {
      assert (f + t)[1..] == f[1..] + t;
      QuotedRun(f[1..], t);
      assert [f[0]] + (f[1..] + Segments(t, true)[0]) == f + Segments(t, true)[0];
    }
  }

  lemma QuotedFieldThen(f: string, rest: string)
    requires Quote !in f
    ensures Segments(QuoteField(f) + rest, false)
            == [f + Segments(rest, false)[0]] + Segments(rest, false)[1..]
  {
    var s := QuoteField(f) + rest;
    assert s[1..] == f + ([Quote] + rest);
    QuotedRun(f, [Quote] + rest);
    assert ([Quote] + rest)[1..] == rest;
  }

  /** The segments of a line of quoted, quote-free fields are those fields. */
  lemma {:induction false} SegmentsOfQuotedLine(fs: seq<string>)
    requires |fs| >= 1
    requires forall k :: 0 <= k < |fs| ==> Quote !in fs[k]
    ensures Segments(QuotedLine(fs), false) == fs
    decreases |fs|
  {
    if |fs| == 1 {
      QuotedFieldThen(fs[0], "");
      assert QuoteField(fs[0]) + "" == QuoteField(fs[0]);
      assert fs[0] + "" == fs[0];
    } else {
      var rest := QuotedLine(fs[1..]);
      SegmentsOfQuotedLine(fs[1..]);
      assert QuoteField(fs[0]) + [Comma] + rest == QuoteField(fs[0]) + ([Comma] + rest);
      QuotedFieldThen(fs[0], [Comma] + rest);
      assert ([Comma] + rest)[1..] == rest;
      assert Segments([Comma] + rest, false) == [""] + fs[1..];
      assert fs[0] + "" == fs[0];
      assert fs == [fs[0]] + fs[1..];
    }
  }

  /**
   * Round trip: quoting trimmed, quote-free fields and splitting the line again gives
   * the same fields, provided the last field is non-empty.
   */
  lemma FieldsOfQuotedLine(fs: seq<string>)
    requires |fs| >= 1
    requires forall k :: 0 <= k < |fs| ==> Quote !in fs[k] && IsTrimmed(fs[k])
    requires Last(fs) != ""
    ensures Fields(QuotedLine(fs)) == fs
  {
    SegmentsOfQuotedLine(fs);
    FieldsOfSegments(QuotedLine(fs), fs);
    TrimAllTrimmed(fs);
  }

  lemma FieldsOfSegments(line: string, segs: seq<string>)
    requires Segments(line, false) == segs
    ensures Fields(line) == TrimAll(if Last(segs) == "" then segs[..|segs| - 1] else segs)
  {
  }

  lemma TrimAllTrimmed(ss: seq<string>)
    requires forall k :: 0 <= k < |ss| ==> IsTrimmed(ss[k])
    ensures TrimAll(ss) == ss
  {
  }

  /**
   * The other side of the round trip: when the last quoted field is empty (`...,""`),
   * its segment is empty too and `simpleCsvSplit` drops it, so one field is lost.
   */
  lemma EmptyLastFieldDropped(fs: seq<string>)
    requires |fs| >= 1
    requires forall k :: 0 <= k < |fs| ==> Quote !in fs[k] && IsTrimmed(fs[k])
    requires Last(fs) == ""
    ensures Fields(QuotedLine(fs)) == fs[..|fs| - 1]
  {
    SegmentsOfQuotedLine(fs);
    FieldsOfSegments(QuotedLine(fs), fs);
    TrimAllTrimmed(fs[..|fs| - 1]);
  }
}
