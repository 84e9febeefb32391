/** The data-cleaning side of the trend plotter. A results table is read as
    text; its header names are normalised, the size column is found and
    renamed to "n", every cell is reduced to the characters a number can
    contain, rows without a size or without any measurement are dropped,
    and each order's series is fitted with a polynomial whose degree depends
    on how many points it has. The numeric conversion, the fit itself and
    all plotting are not part of this model. */
module PlotTrends {
  import opened Wrappers

  // ----- Header names -----

  /** Python's str.isspace: the ASCII controls 9-13 and 28-31, the space,
      and the Unicode separators and spaces. */
  predicate IsSpace(ch: char)
  {
    var k := ch as int;
    k == 32 || 9 <= k <= 13 || 28 <= k <= 31 || k == 0x85 || k == 0xA0 || k == 0x1680 ||
    0x2000 <= k <= 0x200A || k == 0x2028 || k == 0x2029 || k == 0x202F || k == 0x205F || k == 0x3000
  }

  /** s with its leading whitespace removed. */
  function StripStart(s: string): (r: string)
    ensures |r| <= |s| && r == s[|s| - |r|..]
    ensures forall k :: 0 <= k < |s| - |r| ==> IsSpace(s[k])
    ensures |r| == 0 || !IsSpace(r[0])
    decreases |s|
  {
    if |s| > 0 && IsSpace(s[0]) then StripStart(s[1..]) else s
  }

  /** s with its trailing whitespace removed. */
  function StripEnd(s: string): (r: string)
    ensures |r| <= |s| && r == s[..|r|]
    ensures forall k :: |r| <= k < |s| ==> IsSpace(s[k])
    ensures |r| == 0 || !IsSpace(r[|r| - 1])
    decreases |s|
  {
    if |s| > 0 && IsSpace(s[|s| - 1]) then StripEnd(s[..|s| - 1]) else s
  }

  /** Neither starts nor ends with whitespace. */
  predicate Trimmed(s: string)
  {
    |s| == 0 || (!IsSpace(s[0]) && !IsSpace(s[|s| - 1]))
  }

  /** Python's str.strip() with no argument. */
  function Strip(s: string): (r: string)
    ensures Trimmed(r)
    ensures Trimmed(s) ==> r == s
    ensures !Trimmed(s) ==> |r| < |s|
  {
    StripEnd(StripStart(s))
  }

  /** The upper-case letters whose lower-case forms are modelled: ASCII,
      Latin-1 and basic Cyrillic. */
  predicate IsUpper(ch: char)
  {
    var k := ch as int;
    65 <= k <= 90 || (0xC0 <= k <= 0xDE && k != 0xD7) || 0x400 <= k <= 0x42F
  }

  /** A capital's own lower-case letter: 32 code points up for ASCII,
      Latin-1 and the Cyrillic А-Я, 80 up for the Cyrillic Ѐ-Џ. */
  function ToLower(ch: char): (r: char)
    ensures !IsUpper(r)
    ensures !IsUpper(ch) ==> r == ch
    ensures 'A' <= ch <= 'Z' ==> r as int == ch as int + 32
    ensures IsUpper(ch) ==> r as int == ch as int + (if 0x400 <= ch as int <= 0x40F then 0x50 else 0x20)
  {
    var k := ch as int;
    if 65 <= k <= 90 || (0xC0 <= k <= 0xDE && k != 0xD7) || 0x410 <= k <= 0x42F then (k + 32) as char
    else if 0x400 <= k <= 0x40F then (k + 0x50) as char
    else ch
  }

  /** Python's str.lower(), for the letters IsUpper covers. */
  function Lower(s: string): (r: string)
    ensures |r| == |s|
    ensures forall i :: 0 <= i < |s| ==> r[i] == ToLower(s[i])
    ensures forall ch :: ch in r ==> !IsUpper(ch)
  {
    seq(|s|, i requires 0 <= i < |s| => ToLower(s[i]))
  }

  /** "SIZE" lower-cases to "size", the name the size-column rule looks for. */
  lemma LowerExample(s: string)
    requires s == ['S', 'I', 'Z', 'E']
    ensures Lower(s) == ['s', 'i', 'z', 'e']
  {
    assert Lower(s)[0] == ToLower('S');
  }

  lemma LowerFixed(s: string)
    requires forall ch :: ch in s ==> !IsUpper(ch)
    ensures Lower(s) == s
  {
    forall i | 0 <= i < |s| ensures Lower(s)[i] == s[i] {
      assert s[i] in s;
    }
  }

  /** s.replace(x, ""): every occurrence of x deleted, the rest kept in
      order. */
  function Remove(s: string, x: char): (r: string)
    ensures |r| <= |s|
    ensures forall ch :: ch in r <==> ch in s && ch != x
  {
    if |s| == 0 then ""
    else
      assert s == [s[0]] + s[1..];
      (if s[0] == x then "" else [s[0]]) + Remove(s[1..], x)
  }

  /** Removing from a concatenation removes from each part, in order. */
  lemma {:induction false} RemoveAppend(a: string, b: string, x: char)
    ensures Remove(a + b, x) == Remove(a, x) + Remove(b, x)
  {
    if |a| > 0 {
      assert (a + b)[1..] == a[1..] + b;
      RemoveAppend(a[1..], b, x);
    } else {
      assert a + b == b;
    }
  }

  lemma {:induction false} RemoveAbsent(s: string, x: char)
    requires x !in s
    ensures Remove(s, x) == s
  {
    if |s| > 0 {
      assert s[1..] == s[1..];
      RemoveAbsent(s[1..], x);
      assert s == [s[0]] + s[1..];
    }
  }

  /** A header name normalised: stripped, lower-cased, with every space and
      every comma deleted. */
  function NormalizeCol(c: string): (r: string)
    ensures ' ' !in r && ',' !in r
    ensures forall ch :: ch in r ==> !IsUpper(ch)
  {
    Remove(Remove(Lower(Strip(c)), ' '), ',')
  }

  /** Normalising a normalised name changes it exactly when the first pass
      left whitespace other than spaces at one of its ends (a comma next to
      a tab, for instance). */
  lemma NormalizeColIdempotentIff(c: string)
    ensures NormalizeCol(NormalizeCol(c)) == NormalizeCol(c) <==> Trimmed(NormalizeCol(c))
  {
    var r := NormalizeCol(c);
    if Trimmed(r) {
      LowerFixed(r);
      RemoveAbsent(r, ' ');
      RemoveAbsent(r, ',');
    } else {
      assert |NormalizeCol(r)| <= |Strip(r)| < |r|;
    }
  }

  lemma RemoveCons(ch: char, s: string, x: char)
    ensures Remove([ch] + s, x) == (if ch == x then "" else [ch]) + Remove(s, x)
  {
    assert ([ch] + s)[1..] == s;
  }

  /** A name whose first pass leaves a leading tab: ",\tx" becomes "\tx",
      which becomes "x". */
  lemma NormalizeColNotIdempotent(c: string)
    requires c == [',', '\t', 'x']
    ensures NormalizeCol(c) == ['\t', 'x']
    ensures NormalizeCol(NormalizeCol(c)) == ['x']
  {
    var tx, x := ['\t', 'x'], ['x'];
    assert Trimmed(c);
    LowerFixed(c);
    RemoveAbsent(c, ' ');
    assert c == [','] + tx;
    RemoveCons(',', tx, ',');
    RemoveAbsent(tx, ',');
    assert NormalizeCol(c) == tx;
    assert Trimmed(x);
    assert StripStart(x) == x;
    assert IsSpace(tx[0]) && tx[1..] == x;
    assert StripStart(tx) == x;
    assert Strip(tx) == x;
    LowerFixed(x);
    RemoveAbsent(x, ' ');
    RemoveAbsent(x, ',');
  }

  /** The header "i,j,k" becomes "ijk". */
  lemma NormalizeColExample(c: string)
    requires c == ['i', ',', 'j', ',', 'k']
    ensures NormalizeCol(c) == ['i', 'j', 'k']
  {
    assert Trimmed(c);
    LowerFixed(c);
    RemoveAbsent(c, ' ');
    RemoveCommasExample(c);
  }

  lemma RemoveCommasExample(c: string)
    requires c == ['i', ',', 'j', ',', 'k']
    ensures Remove(c, ',') == ['i', 'j', 'k']
  {
    var k, ck, jck, cjck := ['k'], [',', 'k'], ['j', ',', 'k'], [',', 'j', ',', 'k'];
    RemoveAbsent(k, ',');
    assert ck == [','] + k;
    RemoveCons(',', k, ',');
    assert jck == ['j'] + ck;
    RemoveCons('j', ck, ',');
    assert cjck == [','] + jck;
    RemoveCons(',', jck, ',');
    assert c == ['i'] + cjck;
    RemoveCons('i', cjck, ',');
  }

  // ----- The size column -----

  /** w occurs in c as a contiguous piece. */
  predicate Contains(c: string, w: string)
    decreases |c|
  {
    |c| >= |w| && (c[..|w|] == w || Contains(c[1..], w))
  }

  /** The fallback test for a size column: starts with "n" or contains
      "size". */
  predicate LooksLikeSize(c: string)
  {
    (|c| > 0 && c[0] == 'n') || Contains(c, "size")
  }

  /** Every column named `from` renamed to `to`, as a rename with a
      one-entry mapping does. */
  function RenameAll(cols: seq<string>, from: string, to: string): (r: seq<string>)
    ensures |r| == |cols|
    ensures forall i :: 0 <= i < |r| ==> r[i] == (if cols[i] == from then to else cols[i])
  {
    seq(|cols|, i requires 0 <= i < |cols| => if cols[i] == from then to else cols[i])
  }

  /** The first position at or after i whose name looks like a size. */
  function FirstLookingLikeSize(cols: seq<string>, i: nat): (r: Option<nat>)
    requires i <= |cols|
    ensures r.Some? ==> i <= r.value < |cols| && LooksLikeSize(cols[r.value])
    ensures r.Some? ==> forall j :: i <= j < r.value ==> !LooksLikeSize(cols[j])
    ensures r.None? ==> forall j :: i <= j < |cols| ==> !LooksLikeSize(cols[j])
    decreases |cols| - i
  {
    if i == |cols| then None
    else if LooksLikeSize(cols[i]) then Some(i)
    else FirstLookingLikeSize(cols, i + 1)
  }

  /** The names taken as the size column, in order of preference, when no
      column is called "n". */
  const ExactSizeNames: seq<string> := ["size", "dim", "nn"]

  /** The size-column rule: keep "n"; else rename the first present of
      "size", "dim", "nn"; else rename the first name that looks like a
      size; else fail with the names found. */
  function SizeRule(cols: seq<string>): (r: Result<seq<string>, seq<string>>)
    ensures r.Ok? ==> "n" in r.value && |r.value| == |cols|
    ensures r.Err? ==> r.error == cols
  {
    if "n" in cols then Ok(cols)
    else if "size" in cols then Ok(RenameAll(cols, "size", "n"))
    else if "dim" in cols then Ok(RenameAll(cols, "dim", "n"))
    else if "nn" in cols then Ok(RenameAll(cols, "nn", "n"))
    else match FirstLookingLikeSize(cols, 0)
      case Some(k) => Ok(RenameAll(cols, cols[k], "n"))
      case None => Err(cols)
  }

  /** How strongly a name claims to be the size column: 0 for "n", then
      "size", "dim", "nn", then any name that looks like a size, and 5 for
      names that do not claim it at all. */
  function Rank(c: string): (r: nat)
    ensures r <= 5
  {
    if c == "n" then 0
    else if c == "size" then 1
    else if c == "dim" then 2
    else if c == "nn" then 3
    else if LooksLikeSize(c) then 4
    else 5
  }

  lemma RankOfKnownNames(n: string, size: string, nn: string)
    requires n == "n" && size == "size" && nn == "nn"
    ensures LooksLikeSize(n) && LooksLikeSize(size) && LooksLikeSize(nn)
  {
    assert size[..|size|] == size;
  }

  lemma FirstOccurrence(cols: seq<string>, name: string) returns (k: nat)
    requires name in cols
    ensures k < |cols| && cols[k] == name
    ensures forall j :: 0 <= j < k ==> cols[j] != name
  {
    k := 0;
    while cols[k] != name
      invariant k < |cols| && name in cols[k..]
      invariant forall j :: 0 <= j < k ==> cols[j] != name
      decreases |cols| - k
    {
      assert cols[k..] == [cols[k]] + cols[k + 1..];
      k := k + 1;
    }
  }

  /** Position k holds the strongest claim to be the size column, and no
      earlier position claims it as strongly. */
  ghost predicate StrongestClaim(cols: seq<string>, k: nat)
  {
    k < |cols| && Rank(cols[k]) < 5 &&
    (forall j :: 0 <= j < |cols| ==> Rank(cols[k]) <= Rank(cols[j])) &&
    (forall j :: 0 <= j < k ==> Rank(cols[k]) < Rank(cols[j]))
  }

  /** The first occurrence of a claimed name is the strongest claim when no
      stronger name is present. */
  lemma FirstOfName(cols: seq<string>, name: string) returns (k: nat)
    requires name in cols && Rank(name) < 4
    requires forall j :: 0 <= j < |cols| ==> Rank(cols[j]) >= Rank(name)
    ensures StrongestClaim(cols, k) && cols[k] == name
  {
    k := FirstOccurrence(cols, name);
    forall j | 0 <= j < k ensures Rank(name) < Rank(cols[j]) {
      assert cols[j] != name;
    }
  }

  lemma RankAtLeast(c: string, bound: nat)
    requires bound <= 4
    requires bound > 0 ==> c != "n"
    requires bound > 1 ==> c != "size"
    requires bound > 2 ==> c != "dim"
    requires bound > 3 ==> c != "nn"
    ensures Rank(c) >= bound
  {
  }

  /** The rule, restated without its cascade: it fails exactly when no name
      claims the size, and otherwise it renames (to "n") the name at the
      first position of the strongest claim. */
  lemma SizeRuleByRank(cols: seq<string>)
    ensures SizeRule(cols).Err? <==> forall j :: 0 <= j < |cols| ==> Rank(cols[j]) == 5
    ensures SizeRule(cols).Ok? ==>
      exists k: nat :: StrongestClaim(cols, k) && SizeRule(cols).value == RenameAll(cols, cols[k], "n")
  {
    RankOfKnownNames("n", "size", "nn");
    var r := SizeRule(cols);
    var bound: nat := if "n" in cols then 0 else if "size" in cols then 1 else if "dim" in cols then 2
      else if "nn" in cols then 3 else 4;
    forall j | 0 <= j < |cols| ensures Rank(cols[j]) >= bound {
      RankAtLeast(cols[j], bound);
    }
    if bound < 4 {
      var name := if bound == 0 then "n" else if bound == 1 then "size" else if bound == 2 then "dim" else "nn";
      var k := FirstOfName(cols, name);
      assert r.value == RenameAll(cols, cols[k], "n");
    } else {
      match FirstLookingLikeSize(cols, 0)
      case Some(k) =>
        assert Rank(cols[k]) == 4;
        assert StrongestClaim(cols, k);
      case None =>
    }
  }

  /** The rule renames the first preferred name present. */
  lemma ExactNameRule(cols: seq<string>, t: nat)
    requires "n" !in cols && t < 3 && ExactSizeNames[t] in cols
    requires forall t' :: 0 <= t' < t ==> ExactSizeNames[t'] !in cols
    ensures SizeRule(cols) == Ok(RenameAll(cols, ExactSizeNames[t], "n"))
  {
    if t > 0 {
      assert ExactSizeNames[0] !in cols;
    }
    if t > 1 {
      assert ExactSizeNames[1] !in cols;
    }
  }

  /** Without "n" and the preferred names, the rule renames the first name
      that looks like a size (k), or fails when there is none (k = |cols|). */
  lemma LooseNameRule(cols: seq<string>, k: nat)
    requires "n" !in cols && forall t :: 0 <= t < 3 ==> ExactSizeNames[t] !in cols
    requires k <= |cols| && forall j :: 0 <= j < k ==> !LooksLikeSize(cols[j])
    requires k < |cols| ==> LooksLikeSize(cols[k])
    ensures k < |cols| ==> SizeRule(cols) == Ok(RenameAll(cols, cols[k], "n"))
    ensures k == |cols| ==> SizeRule(cols).Err?
  {
    assert ExactSizeNames[0] !in cols && ExactSizeNames[1] !in cols && ExactSizeNames[2] !in cols;
    var first := FirstLookingLikeSize(cols, 0);
    if k < |cols| {
      assert first == Some(k);
    } else {
      assert first.None?;
    }
  }

  // ----- Cell cleaning -----

  /** The characters the cleaning keeps: digits, exponent letters, signs and
      the decimal point. */
  predicate IsNumChar(ch: char)
  {
    '0' <= ch <= '9' || ch == 'e' || ch == 'E' || ch == '+' || ch == '-' || ch == '.'
  }

  /** Every comma replaced by a decimal point. */
  function CommasToPoints(s: string): (r: string)
    ensures |r| == |s|
    ensures forall i :: 0 <= i < |s| ==> r[i] == (if s[i] == ',' then '.' else s[i])
  {
    if |s| == 0 then ""
    else [if s[0] == ',' then '.' else s[0]] + CommasToPoints(s[1..])
  }

  /** No comma is left, every other character stays, and a point occurs
      exactly when there was a point or a comma. */
  lemma {:induction false} CommasToPointsMembers(s: string)
    ensures ',' !in CommasToPoints(s)
    ensures forall ch :: ch in CommasToPoints(s) <==> (ch in s && ch != ',') || (ch == '.' && ',' in s)
  {
    if |s| > 0 {
      assert s == [s[0]] + s[1..];
      CommasToPointsMembers(s[1..]);
    }
  }

  /** Every character a number cannot contain deleted, the rest kept in
      order. */
  function KeepNumChars(s: string): (r: string)
    ensures |r| <= |s|
  {
    if |s| == 0 then ""
    else (if IsNumChar(s[0]) then [s[0]] else "") + KeepNumChars(s[1..])
  }

  /** Deleting from a concatenation deletes from each part, in order. */
  lemma {:induction false} KeepAppend(a: string, b: string)
    ensures KeepNumChars(a + b) == KeepNumChars(a) + KeepNumChars(b)
  {
    if |a| > 0 {
      assert (a + b)[1..] == a[1..] + b;
      KeepAppend(a[1..], b);
    } else {
      assert a + b == b;
    }
  }

  /** Exactly the number characters of s survive. */
  lemma {:induction false} KeepNumCharsMembers(s: string)
    ensures forall ch :: ch in KeepNumChars(s) <==> ch in s && IsNumChar(ch)
  {
    if |s| > 0 {
      assert s == [s[0]] + s[1..];
      KeepNumCharsMembers(s[1..]);
    }
  }

  lemma {:induction false} CommasAbsent(s: string)
    requires ',' !in s
    ensures CommasToPoints(s) == s
  {
    if |s| > 0 {
      assert s == [s[0]] + s[1..];
      CommasAbsent(s[1..]);
    }
  }

  lemma {:induction false} AllNumChars(s: string)
    requires forall ch :: ch in s ==> IsNumChar(ch)
    ensures KeepNumChars(s) == s
  {
    if |s| > 0 {
      assert s == [s[0]] + s[1..];
      AllNumChars(s[1..]);
    }
  }

  /** The text of a cell as the string conversion gives it: a missing cell
      reads "nan". */
  function CellText(cell: Option<string>): string
  {
    match cell
    case None => "nan"
    case Some(s) => s
  }

  /** One cell cleaned: commas read as decimal points, every character a
      number cannot contain deleted, and an empty result made missing. */
  function CleanCell(cell: Option<string>): (r: Option<string>)
    ensures r.Some? ==> |r.value| > 0 && forall ch :: ch in r.value ==> IsNumChar(ch)
    ensures forall ch :: (r.Some? && ch in r.value) <==>
      IsNumChar(ch) && (ch in CellText(cell) || (ch == '.' && ',' in CellText(cell)))
    ensures r.None? <==> forall ch :: ch in CellText(cell) ==> !IsNumChar(ch) && ch != ','
  {
    var text := CellText(cell);
    CommasToPointsMembers(text);
    KeepNumCharsMembers(CommasToPoints(text));
    var t := KeepNumChars(CommasToPoints(text));
    if |t| == 0 then
      assert forall ch :: ch in text ==> !IsNumChar(ch) && ch != ',' by {
        forall ch | ch in text ensures !IsNumChar(ch) && ch != ',' {
          assert ch !in t && '.' !in t;
        }
      }
      None
    else
      assert t[0] in t;
      Some(t)
  }

  /** The characters a cleaned cell holds; none for a missing cell. */
  function CleanedChars(r: Option<string>): string
  {
    match r
    case None => ""
    case Some(t) => t
  }

  lemma CleanedCharsOf(text: string)
    ensures CleanedChars(CleanCell(Some(text))) == KeepNumChars(CommasToPoints(text))
  {
  }

  /** Cleaning a text made of two parts cleans each part, in order: the
      kept characters keep their order and their number. */
  lemma CleanCellAppend(a: string, b: string)
    ensures CleanedChars(CleanCell(Some(a + b))) ==
      CleanedChars(CleanCell(Some(a))) + CleanedChars(CleanCell(Some(b)))
  {
    assert CommasToPoints(a + b) == CommasToPoints(a) + CommasToPoints(b);
    KeepAppend(CommasToPoints(a), CommasToPoints(b));
    CleanedCharsOf(a + b);
    CleanedCharsOf(a);
    CleanedCharsOf(b);
  }

  /** A one-character text: a number character stays, a comma becomes a
      point, anything else leaves the cell missing. */
  lemma CleanCellChar(c: char)
    ensures CleanCell(Some([c])) ==
      if IsNumChar(c) then Some([c]) else if c == ',' then Some(['.']) else None
  {
    KeepCons(if c == ',' then '.' else c, []);
    assert CommasToPoints([c]) == [if c == ',' then '.' else c];
    assert [if c == ',' then '.' else c] == [if c == ',' then '.' else c] + [];
  }

  /** Cleaning a cleaned cell changes nothing. */
  lemma CleanCellIdempotent(cell: Option<string>)
    ensures CleanCell(CleanCell(cell)) == CleanCell(cell)
  {
    var r := CleanCell(cell);
    if r.Some? {
      assert ',' !in r.value;
      CommasAbsent(r.value);
      AllNumChars(r.value);
    } else {
      assert CellText(r) == "nan";
    }
  }

  lemma KeepCons(ch: char, s: string)
    ensures KeepNumChars([ch] + s) == (if IsNumChar(ch) then [ch] else "") + KeepNumChars(s)
  {
    assert ([ch] + s)[1..] == s;
  }

  lemma CommaCons(ch: char, s: string)
    ensures CommasToPoints([ch] + s) == [if ch == ',' then '.' else ch] + CommasToPoints(s)
  {
    assert ([ch] + s)[1..] == s;
  }

  lemma CleanedText(cell: Option<string>, t: string)
    requires KeepNumChars(CommasToPoints(CellText(cell))) == t && |t| > 0
    ensures CleanCell(cell) == Some(t)
  {
  }

  lemma CommasExample(text: string)
    requires text == ['1', ',', '5', ' ', 's']
    ensures CommasToPoints(text) == ['1', '.', '5', ' ', 's']
  {
    var r := CommasToPoints(text);
    assert r[0] == '1' && r[1] == '.' && r[2] == '5' && r[3] == ' ' && r[4] == 's';
  }

  lemma KeepExample(pointed: string)
    requires pointed == ['1', '.', '5', ' ', 's']
    ensures KeepNumChars(pointed) == ['1', '.', '5']
  {
    var s, ss, fss, pfss := ['s'], [' ', 's'], ['5', ' ', 's'], ['.', '5', ' ', 's'];
    KeepCons('s', []);
    assert KeepNumChars(s) == [];
    assert ss == [' '] + s;
    KeepCons(' ', s);
    assert KeepNumChars(ss) == [];
    assert fss == ['5'] + ss;
    KeepCons('5', ss);
    assert KeepNumChars(fss) == ['5'];
    assert pfss == ['.'] + fss;
    KeepCons('.', fss);
    assert KeepNumChars(pfss) == ['.', '5'];
    assert pointed == ['1'] + pfss;
    KeepCons('1', pfss);
  }

  /** "1,5 s" cleans to "1.5". */
  lemma CleanCellExample(cell: Option<string>)
    requires cell == Some(['1', ',', '5', ' ', 's'])
    ensures CleanCell(cell) == Some(['1', '.', '5'])
  {
    CommasExample(cell.value);
    KeepExample(['1', '.', '5', ' ', 's']);
    CleanedText(cell, ['1', '.', '5']);
  }

  /** A missing cell reads "nan", which holds no number character, so it
      stays missing. */
  lemma MissingCellStaysMissing()
    ensures CleanCell(None) == None
  {
    var nan := CellText(None);
    assert forall ch :: ch in nan ==> !IsNumChar(ch) && ch != ',';
  }

  /** A column cleaned cell by cell. */
  function CleanColumn(col: seq<Option<string>>): (r: seq<Option<string>>)
    ensures |r| == |col|
    ensures forall i :: 0 <= i < |r| ==> r[i] == CleanCell(col[i])
  {
    seq(|col|, i requires 0 <= i < |col| => CleanCell(col[i]))
  }

  lemma CleanColumnIdempotent(col: seq<Option<string>>)
    ensures CleanColumn(CleanColumn(col)) == CleanColumn(col)
  {
    forall i | 0 <= i < |col| ensures CleanCell(CleanCell(col[i])) == CleanCell(col[i]) {
      CleanCellIdempotent(col[i]);
    }
  }

  /** The table as read: its header names and, column by column, the text of
      each cell (None for an empty field). */
  class Frame {
    var columns: seq<string>
    var data: seq<seq<Option<string>>>

    constructor (columns: seq<string>, data: seq<seq<Option<string>>>)
      ensures this.columns == columns && this.data == data
    {
      this.columns := columns;
      this.data := data;
    }

    /** Replaces every header name by its normalised form. */
    method NormalizeHeaders()
      modifies this
      ensures |columns| == |old(columns)|
      ensures forall i :: 0 <= i < |columns| ==> columns[i] == NormalizeCol(old(columns)[i])
      ensures data == old(data)
    {
      var cols := columns;
      columns := seq(|cols|, i requires 0 <= i < |cols| => NormalizeCol(cols[i]));
    }

    /** Renames the size column to "n" by the size-column rule; false, with
        nothing renamed, when no column qualifies. */
    method ResolveSizeColumn() returns (found: bool)
      modifies this
      ensures found <==> SizeRule(old(columns)).Ok?
      ensures found ==> columns == SizeRule(old(columns)).value
      ensures !found ==> columns == old(columns)
      ensures data == old(data)
    {
      if "n" !in columns {
        var candidates := ExactSizeNames;
        for t := 0 to 3
          invariant columns == old(columns)
          invariant forall t' :: 0 <= t' < t ==> candidates[t'] !in columns
        {
          if candidates[t] in columns {
            ExactNameRule(columns, t);
            columns := RenameAll(columns, candidates[t], "n");
            break;
          }
        }
      }
      if "n" !in columns {
        var cols := columns;
        for k := 0 to |cols|
          invariant columns == cols
          invariant forall j :: 0 <= j < k ==> !LooksLikeSize(cols[j])
        {
          if LooksLikeSize(cols[k]) {
            LooseNameRule(cols, k);
            columns := RenameAll(cols, cols[k], "n");
            break;
          }
        }
        if "n" !in columns {
          LooseNameRule(cols, |cols|);
        }
      }
      found := "n" in columns;
    }

    /** Cleans every cell of every column. */
    method CleanCells()
      modifies this
      ensures columns == old(columns)
      ensures |data| == |old(data)|
      ensures forall c :: 0 <= c < |data| ==> data[c] == CleanColumn(old(data)[c])
    {
      for c := 0 to |data|
        invariant columns == old(columns) && |data| == |old(data)|
        invariant forall c' :: 0 <= c' < c ==> data[c'] == CleanColumn(old(data)[c'])
        invariant forall c' :: c <= c' < |data| ==> data[c'] == old(data)[c']
      {
        data := data[c := CleanColumn(data[c])];
      }
    }
  }

  // ----- Row filters -----

  /** One row of the table after numeric conversion: a value per column,
      None where the conversion gave NaN. */
  type Row = seq<Option<real>>

  /** Which rows a filter keeps: those with every "n" cell present, or those
      with some other cell present. */
  datatype Keep = SizePresent | AnyMeasured

  predicate Passes(cols: seq<string>, row: Row, keep: Keep)
  {
    match keep
    case SizePresent => forall c :: 0 <= c < |cols| && c < |row| && cols[c] == "n" ==> row[c].Some?
    case AnyMeasured => exists c :: 0 <= c < |cols| && c < |row| && cols[c] != "n" && row[c].Some?
  }

  /** The rows that pass, in their original order. */
  function Filter(cols: seq<string>, rows: seq<Row>, keep: Keep): (r: seq<Row>)
    ensures |r| <= |rows|
    ensures forall k :: 0 <= k < |r| ==> Passes(cols, r[k], keep) && r[k] in rows
    ensures forall k :: 0 <= k < |rows| && Passes(cols, rows[k], keep) ==> rows[k] in r
  {
    if |rows| == 0 then []
    else
      var front := rows[..|rows| - 1];
      var last := rows[|rows| - 1];
      assert rows == front + [last];
      Filter(cols, front, keep) + (if Passes(cols, last, keep) then [last] else [])
  }

  /** Filtering a concatenation filters each part and keeps them in order:
      the relative order of the surviving rows is the original one. */
  lemma {:induction false} FilterAppend(cols: seq<string>, a: seq<Row>, b: seq<Row>, keep: Keep)
    ensures Filter(cols, a + b, keep) == Filter(cols, a, keep) + Filter(cols, b, keep)
    decreases |b|
  {
    if |b| == 0 {
      assert a + b == a;
    } else {
      var b' := b[..|b| - 1];
      assert (a + b)[..|a + b| - 1] == a + b';
      FilterAppend(cols, a, b', keep);
    }
  }

  /** Filtering twice with the same rule is filtering once. */
  lemma {:induction false} FilterIdempotent(cols: seq<string>, rows: seq<Row>, keep: Keep)
    ensures Filter(cols, Filter(cols, rows, keep), keep) == Filter(cols, rows, keep)
  {
    if |rows| > 0 {
      var front := rows[..|rows| - 1];
      var last := rows[|rows| - 1];
      FilterIdempotent(cols, front, keep);
      FilterAppend(cols, Filter(cols, front, keep), if Passes(cols, last, keep) then [last] else [], keep);
      if Passes(cols, last, keep) {
        assert Filter(cols, [last], keep) == Filter(cols, [], keep) + [last] by {
          assert [last][..0] == [];
        }
      }
    }
  }

  /** Both filters applied in turn; failing when no row is left. */
  function CleanRows(cols: seq<string>, rows: seq<Row>): (r: Result<seq<Row>, string>)
    ensures r.Ok? ==> |r.value| > 0
    ensures r.Ok? ==> forall k :: 0 <= k < |r.value| ==>
      Passes(cols, r.value[k], SizePresent) && Passes(cols, r.value[k], AnyMeasured) && r.value[k] in rows
  {
    var kept := Filter(cols, Filter(cols, rows, SizePresent), AnyMeasured);
    if |kept| == 0 then Err("no rows left after cleaning") else Ok(kept)
  }

  /** The cleaning fails exactly when no row has both a size and a
      measurement. */
  lemma CleanRowsFails(cols: seq<string>, rows: seq<Row>)
    ensures CleanRows(cols, rows).Err? <==>
      forall k :: 0 <= k < |rows| ==> !(Passes(cols, rows[k], SizePresent) && Passes(cols, rows[k], AnyMeasured))
  {
    var sized := Filter(cols, rows, SizePresent);
    var kept := Filter(cols, sized, AnyMeasured);
    if k :| 0 <= k < |rows| && Passes(cols, rows[k], SizePresent) && Passes(cols, rows[k], AnyMeasured) {
      var row := rows[k];
      assert row in sized;
      var q :| 0 <= q < |sized| && sized[q] == row;
      assert row in kept;
    }
    if |kept| > 0 {
      var row := kept[0];
      assert Passes(cols, row, AnyMeasured) && row in sized;
      var q :| 0 <= q < |sized| && sized[q] == row;
      assert Passes(cols, row, SizePresent) && row in rows;
    }
  }

  // ----- Fitting -----

  /** The polynomial degree for a series of `count` points: none below two
      points, otherwise the largest degree up to 3 that the points
      determine. */
  function FitDegree(count: nat): (d: Option<nat>)
    ensures d.None? <==> count < 2
    ensures d.Some? ==> 1 <= d.value <= 3 && d.value <= count - 1
    ensures d.Some? ==> d.value == 3 || d.value == count - 1
  {
    if count < 2 then None
    else
      var atLeastOne := if count - 1 > 1 then count - 1 else 1;
      Some(if atLeastOne < 3 then atLeastOne else 3)
  }

  /** How many rows of a series have a value. */
  function Present(ys: seq<Option<real>>): (c: nat)
    ensures c <= |ys|
  {
    if |ys| == 0 then 0
    else Present(ys[..|ys| - 1]) + (if ys[|ys| - 1].Some? then 1 else 0)
  }

  /** The point one row contributes, if the series has a value there. */
  function PointOf(x: real, y: Option<real>): seq<(real, real)>
  {
    match y
    case Some(v) => [(x, v)]
    case None => []
  }

  /** The points of one series: the size and the value of every row where
      the series has a value, in row order. */
  function FitPoints(xs: seq<real>, ys: seq<Option<real>>): (r: seq<(real, real)>)
    requires |xs| == |ys|
    ensures |r| == Present(ys)
    ensures forall k :: 0 <= k < |r| ==> exists i :: 0 <= i < |ys| && ys[i] == Some(r[k].1) && xs[i] == r[k].0
    ensures (forall i :: 0 <= i < |ys| ==> ys[i].Some?) ==> |r| == |ys|
  {
    if |ys| == 0 then []
    else
      var n := |ys| - 1;
      var front := FitPoints(xs[..n], ys[..n]);
      assert forall k :: 0 <= k < |front| ==> exists i :: 0 <= i < |ys| && ys[i] == Some(front[k].1) && xs[i] == front[k].0 by {
        forall k | 0 <= k < |front|
          ensures exists i :: 0 <= i < |ys| && ys[i] == Some(front[k].1) && xs[i] == front[k].0
        {
          var i :| 0 <= i < n && ys[..n][i] == Some(front[k].1) && xs[..n][i] == front[k].0;
          assert ys[i] == Some(front[k].1) && xs[i] == front[k].0;
        }
      }
      front + PointOf(xs[n], ys[n])
  }

  lemma FitPointsSnoc(xs: seq<real>, ys: seq<Option<real>>, xsFront: seq<real>, ysFront: seq<Option<real>>)
    requires |xs| == |ys| && |ys| > 0
    requires xsFront == xs[..|ys| - 1] && ysFront == ys[..|ys| - 1]
    ensures FitPoints(xs, ys) == FitPoints(xsFront, ysFront) + PointOf(xs[|ys| - 1], ys[|ys| - 1])
  {
  }

  lemma Regroup(a: seq<(real, real)>, b: seq<(real, real)>, c: seq<(real, real)>, whole: seq<(real, real)>, part: seq<(real, real)>)
    requires whole == (a + b) + c && part == b + c
    ensures whole == a + part
  {
  }

  /** The points of two stretches of rows are the points of the first
      followed by those of the second: row order is kept. */
  lemma {:induction false} FitPointsAppend(xs1: seq<real>, ys1: seq<Option<real>>, xs2: seq<real>, ys2: seq<Option<real>>)
    requires |xs1| == |ys1| && |xs2| == |ys2|
    ensures FitPoints(xs1 + xs2, ys1 + ys2) == FitPoints(xs1, ys1) + FitPoints(xs2, ys2)
    decreases |ys2|
  {
    if |ys2| == 0 {
      assert xs1 + xs2 == xs1 && ys1 + ys2 == ys1;
    } else {
      var m := |ys2| - 1;
      var xs, ys := xs1 + xs2, ys1 + ys2;
      var n := |ys| - 1;
      assert xs[..n] == xs1 + xs2[..m] && ys[..n] == ys1 + ys2[..m];
      assert ys[n] == ys2[m] && xs[n] == xs2[m];
      var tail := PointOf(xs2[m], ys2[m]);
      FitPointsSnoc(xs, ys, xs1 + xs2[..m], ys1 + ys2[..m]);
      FitPointsSnoc(xs2, ys2, xs2[..m], ys2[..m]);
      var front1, front2 := FitPoints(xs1, ys1), FitPoints(xs2[..m], ys2[..m]);
      FitPointsAppend(xs1, ys1, xs2[..m], ys2[..m]);
      Regroup(front1, front2, tail, FitPoints(xs, ys), FitPoints(xs2, ys2));
    }
  }

  /** One row gives its point when the series has a value there, and no
      point otherwise. */
  lemma FitPointsOne(x: real, y: Option<real>)
    ensures FitPoints([x], [y]) == if y.Some? then [(x, y.value)] else []
  {
    assert [x][..0] == [] && [y][..0] == [];
  }

  datatype Fit = Fit(degree: nat, points: seq<(real, real)>)

  /** What is fitted for one series: nothing when fewer than two points
      remain, otherwise the points and the degree for their count. */
  function FitPlan(xs: seq<real>, ys: seq<Option<real>>): (r: Option<Fit>)
    requires |xs| == |ys|
    ensures r.None? <==> |FitPoints(xs, ys)| < 2
    ensures r.Some? ==> r.value.points == FitPoints(xs, ys)
    ensures r.Some? ==> 1 <= r.value.degree <= 3 && r.value.degree < |r.value.points|
    ensures r.Some? ==> FitDegree(|r.value.points|) == Some(r.value.degree)
  {
    var points := FitPoints(xs, ys);
    match FitDegree(|points|)
    case None => None
    case Some(d) => Some(Fit(d, points))
  }
}
