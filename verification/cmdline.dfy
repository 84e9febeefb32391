/** The benchmark's command line: `--sizes a,b,c` replaces the list of matrix
    sizes, `--repeats r` replaces the number of timed runs; a flag with no
    following argument is ignored. A numeric argument the standard
    conversions reject ends the program, which is modelled as None. Numbers
    are accepted as plain decimal digits (with an optional sign for the
    repeat count) within the range of the C++ target type. */
module Cmdline {
  import opened Wrappers

  /** The sizes to sweep and the number of timed runs per order. */
  datatype Config = Config(sizes: seq<nat>, repeats: int)

  const DefaultConfig: Config := Config([128, 256, 384, 512, 640], 3)

  /** The largest value of a 64-bit size_t, the result type of stoul. */
  const MaxUnsigned: nat := 0xFFFF_FFFF_FFFF_FFFF

  /** The range of a 32-bit int, the result type of stoi. */
  const MinInt: int := -0x8000_0000
  const MaxInt: int := 0x7FFF_FFFF

  predicate IsDigit(c: char)
  {
    '0' <= c <= '9'
  }

  predicate AllDigits(s: string)
  {
    forall q :: 0 <= q < |s| ==> IsDigit(s[q])
  }

  /** The value of a string of decimal digits, most significant first. */
  function DigitsValue(s: string): nat
    requires AllDigits(s)
  {
    if |s| == 0 then 0
    else DigitsValue(s[..|s| - 1]) * 10 + (s[|s| - 1] as int - '0' as int)
  }

  /** The decimal digits of v, with no leading zero. */
  function ShowDecimal(v: nat): (s: string)
    ensures |s| > 0 && AllDigits(s)
  {
    var d := ['0' + (v % 10) as char];
    if v < 10 then d else ShowDecimal(v / 10) + d
  }

  lemma {:induction false} DigitsOfShowDecimal(v: nat)
    ensures DigitsValue(ShowDecimal(v)) == v
  {
    var s := ShowDecimal(v);
    if v >= 10 {
      DigitsOfShowDecimal(v / 10);
      assert s[..|s| - 1] == ShowDecimal(v / 10);
    }
  }

  /** stoul on a segment: its digits' value, or failure for anything that is
      not a non-empty digit string or that does not fit a size_t. */
  function ParseUnsigned(s: string): (r: Option<nat>)
    ensures r.Some? <==> |s| > 0 && AllDigits(s) && DigitsValue(s) <= MaxUnsigned
    ensures r.Some? ==> r.value <= MaxUnsigned
  {
    if |s| > 0 && AllDigits(s) && DigitsValue(s) <= MaxUnsigned then Some(DigitsValue(s)) else None
  }

  /** Printing a size and reading it back gives the size. */
  lemma ParseShowDecimal(v: nat)
    requires v <= MaxUnsigned
    ensures ParseUnsigned(ShowDecimal(v)) == Some(v)
  {
    DigitsOfShowDecimal(v);
  }

  /** stoi on the repeat argument: an optional sign then decimal digits, or
      failure when the text is malformed or outside the int range. */
  function ParseSigned(s: string): (r: Option<int>)
    ensures r.Some? ==> MinInt <= r.value <= MaxInt
    ensures r.Some? ==> |s| > 0 && IsDigit(s[|s| - 1])
    ensures |s| > 0 && AllDigits(s) ==>
      r == (if DigitsValue(s) <= MaxInt then Some(DigitsValue(s)) else None)
    ensures |s| > 1 && s[0] == '+' && AllDigits(s[1..]) ==>
      r == (if DigitsValue(s[1..]) <= MaxInt then Some(DigitsValue(s[1..])) else None)
    ensures |s| > 1 && s[0] == '-' && AllDigits(s[1..]) ==>
      r == (if DigitsValue(s[1..]) <= -MinInt then Some(-(DigitsValue(s[1..]) as int)) else None)
  {
    var negative := |s| > 0 && s[0] == '-';
    var body := if |s| > 0 && (s[0] == '-' || s[0] == '+') then s[1..] else s;
    if |body| == 0 || !AllDigits(body) then None
    else
      var v: int := if negative then -(DigitsValue(body) as int) else DigitsValue(body);
      if MinInt <= v <= MaxInt then Some(v) else None
  }

  /** The comma-separated segments of s, in order, empty ones included;
      there is always at least one. */
  function Fields(s: string): (r: seq<string>)
    ensures |r| >= 1
    ensures forall q :: 0 <= q < |r| ==> ',' !in r[q]
  {
    if |s| == 0 then [""]
    else
      var init := Fields(s[..|s| - 1]);
      if s[|s| - 1] == ',' then init + [""]
      else init[..|init| - 1] + [init[|init| - 1] + [s[|s| - 1]]]
  }

  /** The segments joined back together with a comma between neighbours. */
  function Join(fs: seq<string>): string
  {
    if |fs| == 0 then ""
    else if |fs| == 1 then fs[0]
    else Join(fs[..|fs| - 1]) + "," + fs[|fs| - 1]
  }

  /** Appending a character to the last segment appends it to the join. */
  lemma JoinExtendLast(front: seq<string>, w: string, c: char)
    ensures Join(front + [w + [c]]) == Join(front + [w]) + [c]
  {
    var a, b := front + [w + [c]], front + [w];
    if |front| > 0 {
      assert a[..|a| - 1] == front && b[..|b| - 1] == front;
      assert Join(front) + "," + (w + [c]) == (Join(front) + "," + w) + [c];
    }
  }

  /** One more character keeps the join equal to the text. */
  lemma FieldsJoinStep(t: string, c: char)
    requires Join(Fields(t)) == t
    ensures Join(Fields(t + [c])) == t + [c]
  {
    var s := t + [c];
    assert s[..|s| - 1] == t;
    var init := Fields(t);
    if c == ',' {
      FieldsComma(t);
      assert (init + [""])[..|init|] == init;
    } else {
      var front := init[..|init| - 1];
      assert init == front + [init[|init| - 1]];
      assert Fields(s) == front + [init[|init| - 1] + [c]];
      JoinExtendLast(front, init[|init| - 1], c);
    }
  }

  /** Splitting loses nothing: joining the segments with commas gives the
      text back. With the segments free of commas, this fixes the split. */
  lemma {:induction false} FieldsJoin(s: string)
    ensures Join(Fields(s)) == s
  {
    if |s| > 0 {
      var t := s[..|s| - 1];
      FieldsJoin(t);
      FieldsJoinStep(t, s[|s| - 1]);
      assert s == t + [s[|s| - 1]];
    }
  }

  /** One more comma-free segment after a comma is one more field. */
  lemma JoinFieldsStep(front: seq<string>, last: string)
    requires |front| >= 1 && ',' !in last && Fields(Join(front)) == front
    ensures Fields(Join(front + [last])) == front + [last]
  {
    var fs := front + [last];
    assert fs[..|fs| - 1] == front && fs[|fs| - 1] == last;
    FieldsComma(Join(front));
    FieldsExtend(Join(front) + ",", last);
    var split := front + [""];
    assert split[..|split| - 1] == front && split[|split| - 1] + last == last;
  }

  /** Splitting comma-free segments joined with commas gives the segments
      back. */
  lemma {:induction false} JoinFields(fs: seq<string>)
    requires |fs| >= 1 && forall q :: 0 <= q < |fs| ==> ',' !in fs[q]
    ensures Fields(Join(fs)) == fs
  {
    if |fs| == 1 {
      FieldsOfSegment(fs[0]);
    } else {
      var front := fs[..|fs| - 1];
      JoinFields(front);
      JoinFieldsStep(front, fs[|fs| - 1]);
      assert fs == front + [fs[|fs| - 1]];
    }
  }

  /** A comma-free text is a single segment. */
  lemma FieldsOfSegment(w: string)
    requires ',' !in w
    ensures Fields(w) == [w]
  {
    FieldsExtend("", w);
    assert "" + w == w;
  }

  /** The segments that are not empty, in order. */
  function NonEmpty(fs: seq<string>): (r: seq<string>)
    ensures |r| <= |fs|
    ensures forall q :: 0 <= q < |r| ==> r[q] != ""
  {
    if |fs| == 0 then []
    else NonEmpty(fs[..|fs| - 1]) + (if fs[|fs| - 1] == "" then [] else [fs[|fs| - 1]])
  }

  /** Every segment parsed in order; one failure fails the whole list. */
  function ParseAll(fs: seq<string>): (r: Option<seq<nat>>)
    ensures r.Some? <==> forall q :: 0 <= q < |fs| ==> ParseUnsigned(fs[q]).Some?
    ensures r.Some? ==> |r.value| == |fs|
    ensures r.Some? ==> forall q :: 0 <= q < |fs| ==> r.value[q] == ParseUnsigned(fs[q]).value
  {
    if |fs| == 0 then Some([])
    else match (ParseAll(fs[..|fs| - 1]), ParseUnsigned(fs[|fs| - 1]))
      case (Some(vs), Some(v)) => Some(vs + [v])
      case _ => None
  }

  /** The size list an argument of --sizes denotes. */
  function SizesList(s: string): Option<seq<nat>>
  {
    ParseAll(NonEmpty(Fields(s)))
  }

  /** The sizes joined with commas, the form --sizes accepts. */
  function JoinSizes(xs: seq<nat>): (s: string)
  {
    if |xs| == 0 then ""
    else if |xs| == 1 then ShowDecimal(xs[0])
    else JoinSizes(xs[..|xs| - 1]) + "," + ShowDecimal(xs[|xs| - 1])
  }

  /** A comma closes the last segment and opens an empty one. */
  lemma FieldsComma(s: string)
    ensures Fields(s + ",") == Fields(s) + [""]
  {
    assert (s + ",")[..|s|] == s;
  }

  /** Appending characters other than commas extends the last segment. */
  lemma {:induction false} FieldsExtend(s: string, w: string)
    requires ',' !in w
    ensures Fields(s + w) == Fields(s)[..|Fields(s)| - 1] + [Fields(s)[|Fields(s)| - 1] + w]
    decreases |w|
  {
    if |w| == 0 {
      assert s + w == s;
      var fs := Fields(s);
      assert fs[|fs| - 1] + w == fs[|fs| - 1];
      assert fs == fs[..|fs| - 1] + [fs[|fs| - 1]];
    } else {
      var w', c := w[..|w| - 1], w[|w| - 1];
      assert (s + w)[..|s + w| - 1] == s + w';
      assert c != ',' by {
        assert c in w;
      }
      FieldsExtend(s, w');
      var fs := Fields(s);
      var init := Fields(s + w');
      assert init[..|init| - 1] == fs[..|fs| - 1];
      assert fs[|fs| - 1] + w' + [c] == fs[|fs| - 1] + w;
    }
  }

  /** Each size printed in decimal, in order. */
  function Shown(xs: seq<nat>): (r: seq<string>)
    ensures |r| == |xs|
    ensures forall q :: 0 <= q < |r| ==> r[q] != ""
  {
    if |xs| == 0 then [] else Shown(xs[..|xs| - 1]) + [ShowDecimal(xs[|xs| - 1])]
  }

  /** The segments of a joined list are the printed sizes. */
  lemma {:induction false} FieldsOfJoin(xs: seq<nat>)
    requires |xs| >= 1
    ensures Fields(JoinSizes(xs)) == Shown(xs)
  {
    var w := ShowDecimal(xs[|xs| - 1]);
    assert ',' !in w by {
      assert AllDigits(w);
    }
    var xs' := xs[..|xs| - 1];
    assert "" + w == w;
    if |xs| == 1 {
      FieldsExtend("", w);
    } else {
      var j := JoinSizes(xs');
      FieldsOfJoin(xs');
      FieldsComma(j);
      FieldsExtend(j + ",", w);
    }
  }

  lemma {:induction false} NonEmptyKeepsAll(fs: seq<string>)
    requires forall q :: 0 <= q < |fs| ==> fs[q] != ""
    ensures NonEmpty(fs) == fs
  {
    if |fs| > 0 {
      NonEmptyKeepsAll(fs[..|fs| - 1]);
    }
  }

  lemma {:induction false} ParseAllShown(xs: seq<nat>)
    requires forall q :: 0 <= q < |xs| ==> xs[q] <= MaxUnsigned
    ensures ParseAll(Shown(xs)) == Some(xs)
  {
    if |xs| > 0 {
      var xs', x := xs[..|xs| - 1], xs[|xs| - 1];
      var w := ShowDecimal(x);
      assert Shown(xs) == Shown(xs') + [w];
      ParseAllShown(xs');
      ParseShowDecimal(x);
      ParseAllSnoc(Shown(xs'), w);
      assert xs' + [x] == xs;
    }
  }

  /** Writing a list of sizes with commas and passing it to --sizes gives the
      list back. */
  lemma SizesRoundTrip(xs: seq<nat>)
    requires forall q :: 0 <= q < |xs| ==> xs[q] <= MaxUnsigned
    ensures SizesList(JoinSizes(xs)) == Some(xs)
  {
    if |xs| > 0 {
      var shown := Shown(xs);
      FieldsOfJoin(xs);
      NonEmptyKeepsAll(shown);
      assert NonEmpty(Fields(JoinSizes(xs))) == shown;
      ParseAllShown(xs);
    }
  }

  /** "a,,b," splits into a, an empty segment, b and another empty one. */
  lemma FieldsOfGappedText(a: string, b: string)
    requires ',' !in a && ',' !in b
    ensures Fields(a + ",," + b + ",") == [a, "", b, ""]
  {
    var fs := [a, "", b, ""];
    assert fs[..3] == [a, "", b] && [a, "", b][..2] == [a, ""] && [a, ""][..1] == [a];
    assert Join([a, ""]) == a + "," + "";
    assert Join([a, "", b]) == Join([a, ""]) + "," + b;
    assert Join(fs) == Join([a, "", b]) + "," + "";
    assert ((a + "," + "") + "," + b) + "," + "" == a + ",," + b + ",";
    JoinFields(fs);
  }

  /** Empty segments are skipped: in "a,,b," only a and b remain. */
  lemma SkipEmptySegments(a: string, b: string)
    requires a != "" && b != "" && ',' !in a && ',' !in b
    ensures NonEmpty(Fields(a + ",," + b + ",")) == [a, b]
  {
    FieldsOfGappedText(a, b);
    var fs := [a, "", b, ""];
    assert NonEmpty([a, ""]) == [a] by {
      NonEmptyOfSplit([a, ""]);
      assert Closed([a, ""]) == [a];
      NonEmptyKeepsAll([a]);
    }
    assert NonEmpty([a, "", b]) == [a, b] by {
      NonEmptyOfSplit([a, "", b]);
      assert Closed([a, "", b]) == [a, ""];
    }
    NonEmptyOfSplit(fs);
    assert Closed(fs) == [a, "", b];
  }

  lemma ShowExampleSizes()
    ensures ShowDecimal(128) == "128" && ShowDecimal(256) == "256"
  {
  }

  /** "128,,256," gives [128, 256]. */
  lemma SizesExample(s: string)
    requires s == "128,,256,"
    ensures SizesList(s) == Some([128, 256])
  {
    var a, b := ShowDecimal(128), ShowDecimal(256);
    ShowExampleSizes();
    SkipEmptySegments(a, b);
    assert a + ",," + b + "," == s;
    ParseShowDecimal(128);
    ParseShowDecimal(256);
    assert ParseAll([a]) == Some([128]) by {
      ParseAllSnoc([], a);
      assert [] + [a] == [a];
      assert ParseAll([]) == Some([]);
      assert [] + [128] == [128];
    }
    assert ParseAll([a, b]) == Some([128, 256]) by {
      ParseAllSnoc([a], b);
      assert [a] + [b] == [a, b];
      assert [128] + [256] == [128, 256];
    }
  }

  /** The open (last) segment of a split text. */
  function Open(fs: seq<string>): string
    requires |fs| >= 1
  {
    fs[|fs| - 1]
  }

  /** The segments of a split text a comma has already closed. */
  function Closed(fs: seq<string>): seq<string>
    requires |fs| >= 1
  {
    fs[..|fs| - 1]
  }

  /** The state of the --sizes loop after reading the first p characters of
      s: cur is the open segment and sizes the values of the closed,
      non-empty ones. */
  ghost predicate Scanned(s: string, p: nat, sizes: seq<nat>, cur: string)
  {
    p <= |s| &&
    Open(Fields(s[..p])) == cur &&
    ParseAll(NonEmpty(Closed(Fields(s[..p])))) == Some(sizes)
  }

  /** A comma closes cur: an empty cur is dropped, a parsed one is appended,
      and one stoul rejects fails the whole list. */
  lemma ScanComma(s: string, p: nat, sizes: seq<nat>, cur: string)
    requires Scanned(s, p, sizes, cur) && p < |s| && s[p] == ','
    ensures cur == "" ==> Scanned(s, p + 1, sizes, "")
    ensures cur != "" && ParseUnsigned(cur).Some? ==> Scanned(s, p + 1, sizes + [ParseUnsigned(cur).value], "")
    ensures cur != "" && ParseUnsigned(cur).None? ==> SizesList(s) == None
  {
    var fs := Fields(s[..p]);
    assert s[..p + 1] == s[..p] + ",";
    FieldsComma(s[..p]);
    assert Closed(fs + [""]) == fs;
    NonEmptyOfSplit(fs);
    var ne := NonEmpty(Closed(fs));
    if cur == "" {
      assert NonEmpty(fs) == ne + [] == ne;
    } else {
      ParseAllSnoc(ne, cur);
      if ParseUnsigned(cur).None? {
        NoneSticks(s, p + 1);
      }
    }
  }

  /** Any other character extends cur. */
  lemma ScanChar(s: string, p: nat, sizes: seq<nat>, cur: string)
    requires Scanned(s, p, sizes, cur) && p < |s| && s[p] != ','
    ensures Scanned(s, p + 1, sizes, cur + [s[p]])
  {
    assert s[..p + 1][..p] == s[..p];
  }

  /** Parsing one more segment appends its value, or fails. */
  lemma ParseAllSnoc(fs: seq<string>, w: string)
    ensures ParseAll(fs + [w]) ==
      (if ParseAll(fs).Some? && ParseUnsigned(w).Some? then Some(ParseAll(fs).value + [ParseUnsigned(w).value]) else None)
  {
    assert (fs + [w])[..|fs|] == fs;
  }

  /** The non-empty segments of a split text: the closed ones, then the open
      one unless it is empty. */
  lemma NonEmptyOfSplit(fs: seq<string>)
    requires |fs| >= 1
    ensures NonEmpty(fs) == NonEmpty(Closed(fs)) + (if Open(fs) == "" then [] else [Open(fs)])
  {
    var init, last := fs[..|fs| - 1], fs[|fs| - 1];
    assert Closed(fs) == init && Open(fs) == last;
  }

  /** At the end of the text the open segment is parsed like a closed one. */
  lemma ScanEnd(s: string, sizes: seq<nat>, cur: string)
    requires Scanned(s, |s|, sizes, cur)
    ensures cur == "" ==> SizesList(s) == Some(sizes)
    ensures cur != "" && ParseUnsigned(cur).Some? ==> SizesList(s) == Some(sizes + [ParseUnsigned(cur).value])
    ensures cur != "" && ParseUnsigned(cur).None? ==> SizesList(s) == None
  {
    assert s[..|s|] == s;
    NonEmptyOfSplit(Fields(s));
    var ne := NonEmpty(Closed(Fields(s)));
    if cur == "" {
      assert ne + [] == ne;
    } else {
      ParseAllSnoc(ne, cur);
    }
  }

  /** The character loop of --sizes: segments are collected in cur and
      converted when a comma or the end of the text closes them; an empty
      segment is skipped, a segment stoul rejects aborts (None). */
  method ParseSizes(s: string) returns (r: Option<seq<nat>>)
    ensures r == SizesList(s)
  {
    var sizes: seq<nat> := [];
    var cur: string := "";
    for p := 0 to |s|
      invariant Scanned(s, p, sizes, cur)
    {
      if s[p] == ',' {
        ScanComma(s, p, sizes, cur);
        if cur != "" {
          var v := ParseUnsigned(cur);
          if v.None? {
            return None;
          }
          sizes := sizes + [v.value];
        }
        cur := "";
      } else {
        ScanChar(s, p, sizes, cur);
        cur := cur + [s[p]];
      }
    }
    ScanEnd(s, sizes, cur);
    if cur != "" {
      var v := ParseUnsigned(cur);
      if v.None? {
        return None;
      }
      sizes := sizes + [v.value];
    }
    r := Some(sizes);
  }

  /** Extending a text changes only its last segment and adds new ones: the
      segments closed by a comma stay in place. */
  lemma {:induction false} FieldsPrefix(s: string, p: nat)
    requires p <= |s|
    ensures |Fields(s[..p])| <= |Fields(s)|
    ensures Fields(s)[..|Fields(s[..p])| - 1] == Fields(s[..p])[..|Fields(s[..p])| - 1]
    decreases |s| - p
  {
    if p < |s| {
      var s' := s[..|s| - 1];
      assert s'[..p] == s[..p];
      FieldsPrefix(s', p);
    } else {
      assert s[..p] == s;
    }
  }

  lemma {:induction false} NonEmptyAppend(xs: seq<string>, ys: seq<string>)
    ensures NonEmpty(xs + ys) == NonEmpty(xs) + NonEmpty(ys)
    decreases |ys|
  {
    if |ys| == 0 {
      assert xs + ys == xs;
    } else {
      var ys' := ys[..|ys| - 1];
      assert (xs + ys)[..|xs + ys| - 1] == xs + ys';
      NonEmptyAppend(xs, ys');
    }
  }

  lemma {:induction false} ParseAllAppendNone(xs: seq<string>, ys: seq<string>)
    requires ParseAll(xs) == None
    ensures ParseAll(xs + ys) == None
    decreases |ys|
  {
    if |ys| == 0 {
      assert xs + ys == xs;
    } else {
      var ys' := ys[..|ys| - 1];
      assert (xs + ys)[..|xs + ys| - 1] == xs + ys';
      ParseAllAppendNone(xs, ys');
    }
  }

  /** Once a segment closed by a comma fails to parse, the whole list fails,
      whatever follows. */
  lemma NoneSticks(s: string, p: nat)
    requires p <= |s|
    requires ParseAll(NonEmpty(Fields(s[..p])[..|Fields(s[..p])| - 1])) == None
    ensures SizesList(s) == None
  {
    var closed := Fields(s[..p])[..|Fields(s[..p])| - 1];
    var fs := Fields(s);
    FieldsPrefix(s, p);
    assert fs == closed + fs[|closed|..];
    NonEmptyAppend(closed, fs[|closed|..]);
    ParseAllAppendNone(NonEmpty(closed), NonEmpty(fs[|closed|..]));
  }

  /** The argument loop: starting at index 1, each recognised flag with a
      following argument consumes it; anything else is skipped. */
  function Scan(args: seq<string>, i: nat, cfg: Config): Option<Config>
    decreases |args| - i
  {
    if i >= |args| then Some(cfg)
    else if args[i] == "--sizes" && i + 1 < |args| then
      match SizesList(args[i + 1])
      case None => None
      case Some(sz) => Scan(args, i + 2, cfg.(sizes := sz))
    else if args[i] == "--repeats" && i + 1 < |args| then
      match ParseSigned(args[i + 1])
      case None => None
      case Some(v) => Scan(args, i + 2, cfg.(repeats := v))
    else Scan(args, i + 1, cfg)
  }

  /** With neither flag on the command line the defaults are kept. */
  lemma {:induction false} NoFlagsKeepConfig(args: seq<string>, i: nat, cfg: Config)
    requires forall q :: i <= q < |args| ==> args[q] != "--sizes" && args[q] != "--repeats"
    ensures Scan(args, i, cfg) == Some(cfg)
    decreases |args| - i
  {
    if i < |args| {
      NoFlagsKeepConfig(args, i + 1, cfg);
    }
  }

  /** Without --sizes the size list is never replaced. */
  lemma {:induction false} SizesUntouched(args: seq<string>, i: nat, cfg: Config)
    requires forall q :: i <= q < |args| ==> args[q] != "--sizes"
    ensures Scan(args, i, cfg).Some? ==> Scan(args, i, cfg).value.sizes == cfg.sizes
    decreases |args| - i
  {
    if i < |args| {
      if args[i] == "--repeats" && i + 1 < |args| {
        var v := ParseSigned(args[i + 1]);
        if v.Some? {
          SizesUntouched(args, i + 2, cfg.(repeats := v.value));
        }
      } else {
        SizesUntouched(args, i + 1, cfg);
      }
    }
  }

  /** Without --repeats the repeat count is never replaced. */
  lemma {:induction false} RepeatsUntouched(args: seq<string>, i: nat, cfg: Config)
    requires forall q :: i <= q < |args| ==> args[q] != "--repeats"
    ensures Scan(args, i, cfg).Some? ==> Scan(args, i, cfg).value.repeats == cfg.repeats
    decreases |args| - i
  {
    if i < |args| {
      if args[i] == "--sizes" && i + 1 < |args| {
        var sz := SizesList(args[i + 1]);
        if sz.Some? {
          RepeatsUntouched(args, i + 2, cfg.(sizes := sz.value));
        }
      } else {
        RepeatsUntouched(args, i + 1, cfg);
      }
    }
  }

  /** A flag in the last position has no argument and is ignored. */
  lemma TrailingFlagIgnored(args: seq<string>, cfg: Config)
    requires |args| >= 1
    requires args[|args| - 1] == "--sizes" || args[|args| - 1] == "--repeats"
    ensures Scan(args, |args| - 1, cfg) == Some(cfg)
  {
    assert Scan(args, |args|, cfg) == Some(cfg);
  }

  /** Reads argv (args[0] is the program name) into the benchmark's
      configuration, starting from the defaults. */
  method ParseArgs(args: seq<string>) returns (r: Option<Config>)
    ensures r == Scan(args, 1, DefaultConfig)
  {
    var cfg := DefaultConfig;
    var i := 1;
    while i < |args|
      invariant 1 <= i
      invariant Scan(args, i, cfg) == Scan(args, 1, DefaultConfig)
      decreases |args| - i
    {
      if args[i] == "--sizes" && i + 1 < |args| {
        i := i + 1;
        var sz := ParseSizes(args[i]);
        if sz.None? {
          return None;
        }
        cfg := cfg.(sizes := sz.value);
      } else if args[i] == "--repeats" && i + 1 < |args| {
        i := i + 1;
        var v := ParseSigned(args[i]);
        if v.None? {
          return None;
        }
        cfg := cfg.(repeats := v.value);
      }
      i := i + 1;
    }
    r := Some(cfg);
  }
}
