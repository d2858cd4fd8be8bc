/**
 * The custom-input dialog's submit: split the text on runs of commas and white space, read
 * each token with `parseInt`, check the element count, read or draw the search target,
 * then call the page's callbacks, or show the first error met.
 */
module CustomInput {
  import opened Wrappers

  /**
   * White space and line terminators as ECMA-262 defines them (section 12.2 and 12.3 of
   * ECMA-262): the set `\s` matches in a pattern and `trim` removes.
   */
  predicate IsSpace(c: char)
  {
    || c == '\t' || c == '\n' || c == '\U{0B}' || c == '\U{0C}' || c == '\r' || c == ' '
    || c == '\U{A0}' || c == '\U{1680}' || ('\U{2000}' <= c <= '\U{200A}')
    || c == '\U{2028}' || c == '\U{2029}' || c == '\U{202F}' || c == '\U{205F}'
    || c == '\U{3000}' || c == '\U{FEFF}'
  }

  /** The characters the pattern `[,\s]+` splits on. */
  predicate IsSeparator(c: char)
  {
    c == ',' || IsSpace(c)
  }

  /** A token: non-empty and free of separators. */
  predicate IsToken(t: string)
  {
    t != [] && forall i :: 0 <= i < |t| ==> !IsSeparator(t[i])
  }

  /** The length of the leading run of non-separators. */
  function RunLength(s: string): (n: nat)
    ensures n <= |s|
    ensures forall i :: 0 <= i < n ==> !IsSeparator(s[i])
    ensures n < |s| ==> IsSeparator(s[n])
  {
    if s == [] || IsSeparator(s[0]) then 0 else 1 + RunLength(s[1..])
  }

  /**
   * The pieces of the split that survive the filter on blank pieces: the maximal runs of
   * non-separators, in order. The pieces around a leading or trailing separator run are
   * the empty ones the filter drops.
   */
  function Tokens(s: string): (ts: seq<string>)
    ensures forall i :: 0 <= i < |ts| ==> IsToken(ts[i])
    decreases |s|
  {
    if s == [] then []
    else if IsSeparator(s[0]) then Tokens(s[1..])
    else
      var n := RunLength(s);
      [s[..n]] + Tokens(s[n..])
  }

  function Concat(ts: seq<string>): string
  {
    if ts == [] then [] else ts[0] + Concat(ts[1..])
  }

  /** The characters of `s` that are not separators, in order. */
  function NonSeparators(s: string): string
  {
    if s == [] then []
    else if IsSeparator(s[0]) then NonSeparators(s[1..])
    else [s[0]] + NonSeparators(s[1..])
  }

  lemma {:induction false} NonSeparatorsRun(s: string, n: nat)
    requires n <= |s| && forall i :: 0 <= i < n ==> !IsSeparator(s[i])
    ensures NonSeparators(s) == s[..n] + NonSeparators(s[n..])
  {
    if n > 0 {
      NonSeparatorsRun(s[1..], n - 1);
      assert s[1..][n - 1..] == s[n..];
      assert s[..n] == [s[0]] + s[1..][..n - 1];
    }
  }

  /** The tokens hold every non-separator of the text, in order, and nothing else. */
  lemma {:induction false} TokensKeepText(s: string)
    ensures Concat(Tokens(s)) == NonSeparators(s)
    decreases |s|
  {
    if s != [] {
      if IsSeparator(s[0]) {
        TokensKeepText(s[1..]);
      } else {
        var n := RunLength(s);
        TokensKeepText(s[n..]);
        NonSeparatorsRun(s, n);
        assert Concat(Tokens(s)) == s[..n] + Concat(Tokens(s[n..]));
      }
    }
  }

  /** A run of non-separators ends where a separator (or the end of the text) follows it. */
  lemma RunLengthBefore(a: string, r: string)
    requires r == [] || IsSeparator(r[0])
    ensures RunLength(a + r) == RunLength(a)
  {
    var s, m := a + r, RunLength(a);
    assert m < |s| ==> IsSeparator(s[m]);
  }

  /**
   * Text that continues with a separator splits into the tokens before it and the tokens
   * after it: no token spans a separator.
   */
  lemma {:induction false} TokensBefore(a: string, r: string)
    requires r == [] || IsSeparator(r[0])
    ensures Tokens(a + r) == Tokens(a) + Tokens(r)
    decreases |a|
  {
    var s := a + r;
    if a == [] {
      assert s == r;
    } else if IsSeparator(a[0]) {
      assert s[1..] == a[1..] + r;
      TokensBefore(a[1..], r);
    } else {
      var m := RunLength(a);
      RunLengthBefore(a, r);
      assert s[..m] == a[..m];
      assert s[m..] == a[m..] + r;
      TokensBefore(a[m..], r);
    }
  }

  /** A separator cuts the text in two, and the tokens are those of either side. */
  lemma TokensSplit(a: string, c: char, b: string)
    requires IsSeparator(c)
    ensures Tokens(a + [c] + b) == Tokens(a) + Tokens(b)
  {
    assert a + [c] + b == a + ([c] + b);
    TokensBefore(a, [c] + b);
    assert ([c] + b)[1..] == b;
  }

  /** Text without separators is a single token: tokens are the maximal runs. */
  lemma TokenAlone(t: string)
    requires IsToken(t)
    ensures Tokens(t) == [t]
  {
    assert !IsSeparator(t[0]);
    assert RunLength(t) == |t|;
    assert t[..|t|] == t && t[|t|..] == [];
  }

  /** The tokens joined, each followed by a comma. */
  function Joined(ts: seq<string>): string
  {
    if ts == [] then [] else ts[0] + "," + Joined(ts[1..])
  }

  lemma {:induction false} RunLengthOfToken(t: string, rest: string)
    requires IsToken(t) && (rest == [] || IsSeparator(rest[0]))
    ensures RunLength(t + rest) == |t|
  {
    var s := t + rest;
    assert s[0] == t[0];
    if |t| == 1 {
      assert s[1..] == rest;
    } else {
      RunLengthOfToken(t[1..], rest);
      assert s[1..] == t[1..] + rest;
    }
  }

  /** Splitting tokens joined by commas gives the tokens back. */
  lemma {:induction false} TokensOfJoined(ts: seq<string>)
    requires forall i :: 0 <= i < |ts| ==> IsToken(ts[i])
    ensures Tokens(Joined(ts)) == ts
  {
    if ts != [] {
      var rest := "," + Joined(ts[1..]);
      var s := ts[0] + rest;
      assert Joined(ts) == s;
      RunLengthOfToken(ts[0], rest);
      assert s[0] == ts[0][0];
      assert s[..|ts[0]|] == ts[0];
      assert s[|ts[0]|..] == rest;
      assert Tokens(rest) == Tokens(Joined(ts[1..])) by {
        assert rest[1..] == Joined(ts[1..]);
      }
      TokensOfJoined(ts[1..]);
    }
  }

  /** `trimStart`: drop the leading white space. */
  function TrimStart(s: string): (r: string)
    ensures |r| <= |s|
    ensures r == [] || !IsSpace(r[0])
  {
    if s != [] && IsSpace(s[0]) then TrimStart(s[1..]) else s
  }

  /** What `trimStart` drops is white space, and what it keeps is the rest of the text. */
  lemma {:induction false} TrimStartDrops(s: string)
    ensures var r := TrimStart(s);
      r == s[|s| - |r|..] && forall i :: 0 <= i < |s| - |r| ==> IsSpace(s[i])
  {
    if s != [] && IsSpace(s[0]) {
      TrimStartDrops(s[1..]);
    }
  }

  /** Drop the trailing white space. */
  function TrimEnd(s: string): (r: string)
    ensures |r| <= |s|
    ensures r == [] || !IsSpace(r[|r| - 1])
  {
    if s != [] && IsSpace(s[|s| - 1]) then TrimEnd(s[..|s| - 1]) else s
  }

  /** What the end trim drops is white space, and what it keeps is the start of the text. */
  lemma {:induction false} TrimEndDrops(s: string)
    ensures var r := TrimEnd(s);
      r == s[..|r|] && forall i :: |r| <= i < |s| ==> IsSpace(s[i])
  {
    if s != [] && IsSpace(s[|s| - 1]) {
      TrimEndDrops(s[..|s| - 1]);
    }
  }

  /** `trim`: drop white space at both ends. */
  function Trim(s: string): string
  {
    TrimStart(TrimEnd(s))
  }

  /** A token has no white space to trim. */
  lemma TrimToken(t: string)
    requires IsToken(t)
    ensures Trim(t) == t
  {
    assert !IsSeparator(t[|t| - 1]) && !IsSeparator(t[0]);
  }

  /** The value of `c` as a digit in base `radix` (10 or 16), if it is one. */
  function DigitValue(c: char, radix: nat): (r: Option<nat>)
    requires radix == 10 || radix == 16
    ensures r.Some? ==> r.value < radix
  {
    if '0' <= c <= '9' then Some(c as nat - '0' as nat)
    else if radix == 16 && 'a' <= c <= 'f' then Some(c as nat - 'a' as nat + 10)
    else if radix == 16 && 'A' <= c <= 'F' then Some(c as nat - 'A' as nat + 10)
    else None
  }

  predicate AllDigits(s: string, radix: nat)
    requires radix == 10 || radix == 16
  {
    forall i :: 0 <= i < |s| ==> DigitValue(s[i], radix).Some?
  }

  /** The length of the leading run of digits. */
  function DigitRun(s: string, radix: nat): (n: nat)
    requires radix == 10 || radix == 16
    ensures n <= |s| && AllDigits(s[..n], radix)
    ensures n < |s| ==> DigitValue(s[n], radix).None?
  {
    if s == [] || DigitValue(s[0], radix).None? then 0 else 1 + DigitRun(s[1..], radix)
  }

  /** The number the digits `ds` denote in base `radix`, most significant first. */
  function Value(ds: string, radix: nat): nat
    requires radix == 10 || radix == 16
    requires AllDigits(ds, radix)
  {
    if ds == [] then 0
    else Value(ds[..|ds| - 1], radix) * radix + DigitValue(ds[|ds| - 1], radix).value
  }

  /** Whether a sign says negative, and the text after an optional sign. */
  function SplitSign(t: string): (bool, string)
  {
    if t != [] && t[0] == '-' then (true, t[1..])
    else if t != [] && t[0] == '+' then (false, t[1..])
    else (false, t)
  }

  /** Base 16 and the text after a `0x` or `0X` prefix, else base 10 and the text. */
  function SplitRadix(u: string): (nat, string)
  {
    if |u| >= 2 && u[0] == '0' && (u[1] == 'x' || u[1] == 'X') then (16, u[2..]) else (10, u)
  }

  /** The value of the longest leading run of digits, or NaN (`None`) when there is none. */
  function LeadingNumber(v: string, radix: nat): Option<nat>
    requires radix == 10 || radix == 16
  {
    var n := DigitRun(v, radix);
    if n == 0 then None else Some(Value(v[..n], radix))
  }

  /**
   * `parseInt` without a radix (section 19.2.5 of ECMA-262): skip leading white space,
   * take an optional sign, read a `0x` or `0X` prefix as base 16 and otherwise base 10,
   * and read the longest run of digits after it; no digit at all is NaN (`None`).
   */
  function ParseInt(s: string): (r: Option<int>)
    ensures TrimStart(s) == [] ==> r.None?
  {
    var (negative, u) := SplitSign(TrimStart(s));
    var (radix, v) := SplitRadix(u);
    match LeadingNumber(v, if radix == 16 then 16 else 10)
    case None => None
    case Some(m) => var k: int := m; Some(if negative then -k else k)
  }

  /** Text that starts with anything but white space, a sign or a digit is NaN. */
  lemma ParseIntRejects(s: string)
    requires s != [] && !IsSpace(s[0]) && s[0] != '-' && s[0] != '+' && !('0' <= s[0] <= '9')
    ensures ParseInt(s) == None
  {
  }

  /** The decimal digit of `d < 10`. */
  function DigitChar(d: nat): char
    requires d < 10
  {
    ('0' as nat + d) as char
  }

  /** The decimal numeral of `n`, without leading zeros. */
  function ShowNat(n: nat): (s: string)
    ensures s != [] && AllDigits(s, 10)
    ensures forall i :: 0 <= i < |s| ==> '0' <= s[i] <= '9'
    decreases n
  {
    if n < 10 then [DigitChar(n)] else ShowNat(n / 10) + [DigitChar(n % 10)]
  }

  /** The decimal numeral of `n`, with a minus sign when negative. */
  function ShowInt(n: int): string
  {
    if n < 0 then "-" + ShowNat(-n) else ShowNat(n)
  }

  lemma {:induction false} ValueOfShown(n: nat)
    ensures Value(ShowNat(n), 10) == n
    decreases n
  {
    if n >= 10 {
      ValueOfShown(n / 10);
      var s := ShowNat(n);
      assert s[..|s| - 1] == ShowNat(n / 10);
    }
  }

  lemma {:induction false} DigitRunOf(ds: string, rest: string, radix: nat)
    requires radix == 10 || radix == 16
    requires ds != [] && AllDigits(ds, radix) && (rest == [] || DigitValue(rest[0], radix).None?)
    ensures DigitRun(ds + rest, radix) == |ds|
  {
    var s := ds + rest;
    assert s[0] == ds[0];
    if |ds| == 1 {
      assert s[1..] == rest;
    } else {
      DigitRunOf(ds[1..], rest, radix);
      assert s[1..] == ds[1..] + rest;
    }
  }

  /**
   * `parseInt` reads back the decimal numeral of any integer, and stops at the first
   * character after it that is not a digit: `"12abc"` reads as 12 and `"3.9"` as 3. The
   * only exception is an `x` or `X` straight after a lone `0`, which starts a hexadecimal
   * numeral.
   */
  lemma ParseShown(n: int, rest: string)
    requires rest == [] || (!('0' <= rest[0] <= '9') && rest[0] != 'x' && rest[0] != 'X')
    ensures ParseInt(ShowInt(n) + rest) == Some(n)
  {
    var m: nat := if n < 0 then -n else n;
    SignOfShown(n, rest);
    RadixOfShown(m, rest);
    NumberOfShown(m, rest);
  }

  lemma SignOfShown(n: int, rest: string)
    ensures SplitSign(TrimStart(ShowInt(n) + rest)) == (n < 0, ShowNat(if n < 0 then -n else n) + rest)
  {
    var s := ShowInt(n) + rest;
    if n < 0 {
      assert s == "-" + (ShowNat(-n) + rest);
      assert s[0] == '-';
    } else {
      assert s[0] == ShowNat(n)[0];
    }
    assert !IsSpace(s[0]);
    assert TrimStart(s) == s;
  }

  lemma RadixOfShown(m: nat, rest: string)
    requires rest == [] || (rest[0] != 'x' && rest[0] != 'X')
    ensures SplitRadix(ShowNat(m) + rest) == (10, ShowNat(m) + rest)
  {
    var digits := ShowNat(m);
    var u := digits + rest;
    assert u[0] == digits[0];
    if |digits| == 1 {
      assert |u| >= 2 ==> u[1] == rest[0];
    } else {
      assert u[1] == digits[1];
    }
  }

  lemma NumberOfShown(m: nat, rest: string)
    requires rest == [] || !('0' <= rest[0] <= '9')
    ensures LeadingNumber(ShowNat(m) + rest, 10) == Some(m)
  {
    var digits := ShowNat(m);
    DigitRunOf(digits, rest, 10);
    assert (digits + rest)[..|digits|] == digits;
    ValueOfShown(m);
  }

  /** A numeric prefix is read and the rest ignored: `"12abc"` reads as 12. */
  lemma ParsePrefixExample()
    ensures ParseInt("12abc") == Some(12)
  {
    assert ShowNat(12) == ShowNat(1) + [DigitChar(2)];
    assert ShowInt(12) + "abc" == "12abc";
    ParseShown(12, "abc");
  }

  /** A fraction is cut at the point: `"3.9"` reads as 3. */
  lemma ParseFractionExample()
    ensures ParseInt("3.9") == Some(3)
  {
    assert ShowInt(3) + ".9" == "3.9";
    ParseShown(3, ".9");
  }

  /** What `parseInt` reads from each token once trimmed. */
  function Readings(ts: seq<string>): (rs: seq<Option<int>>)
    ensures |rs| == |ts|
  {
    if ts == [] then [] else [ParseInt(Trim(ts[0]))] + Readings(ts[1..])
  }

  /** The reading of a token is `parseInt` of the token itself, which has nothing to trim. */
  lemma ReadingOfToken(ts: seq<string>, i: nat)
    requires i < |ts| && IsToken(ts[i])
    ensures Readings(ts)[i] == ParseInt(ts[i])
  {
    ReadingAt(ts, i);
    TrimToken(ts[i]);
  }

  lemma {:induction false} ReadingAt(ts: seq<string>, i: nat)
    requires i < |ts|
    ensures Readings(ts)[i] == ParseInt(Trim(ts[i]))
  {
    if i > 0 {
      ReadingAt(ts[1..], i - 1);
    }
  }

  /** The position of the first reading that is NaN, if any. */
  function FirstBad(rs: seq<Option<int>>): (r: Option<nat>)
    ensures r.Some? ==> r.value < |rs| && rs[r.value].None? && forall j :: 0 <= j < r.value ==> rs[j].Some?
    ensures r.None? ==> forall i :: 0 <= i < |rs| ==> rs[i].Some?
  {
    if rs == [] then None
    else if rs[0].None? then Some(0)
    else
      match FirstBad(rs[1..])
      case None => None
      case Some(k) => Some(k + 1)
  }

  /**
   * Collect the readings of the tokens `ts`; the first token that reads as NaN stops the
   * reading with `Invalid number: <token>`.
   */
  function ParseAll(ts: seq<string>, rs: seq<Option<int>>): (r: Result<seq<int>, string>)
    requires |rs| == |ts|
    ensures r.Ok? <==> FirstBad(rs).None?
    ensures r.Ok? ==> |r.value| == |ts| && forall i :: 0 <= i < |ts| ==> rs[i] == Some(r.value[i])
    ensures r.Err? ==> r.error == "Invalid number: " + ts[FirstBad(rs).value]
    decreases |ts|
  {
    if ts == [] then Ok([])
    else
      match rs[0]
      case None => Err("Invalid number: " + ts[0])
      case Some(v) =>
        match ParseAll(ts[1..], rs[1..])
        case Ok(vs) => Ok([v] + vs)
        case Err(e) => Err(e)
  }

  /** The count check after every token reads as a number. */
  function CheckCount(r: Result<seq<int>, string>): Result<seq<int>, string>
  {
    match r
    case Err(e) => Err(e)
    case Ok(vs) =>
      if |vs| < 2 then Err("Please enter at least 2 numbers")
      else if |vs| > 100 then Err("Maximum array size is 100")
      else Ok(vs)
  }

  /** The list the dialog submits: every token a number, between 2 and 100 of them. */
  function ParseArray(text: string): (r: Result<seq<int>, string>)
    ensures r.Ok? ==> 2 <= |r.value| <= 100
  {
    var ts := Tokens(text);
    CheckCount(ParseAll(ts, Readings(ts)))
  }

  /** What the reading and the count check accept and report, for tokens `ts` read as `rs`. */
  ghost predicate Reported(ts: seq<string>, rs: seq<Option<int>>, r: Result<seq<int>, string>)
    requires |rs| == |ts|
  {
    && (r.Ok? <==> (forall i :: 0 <= i < |ts| ==> rs[i].Some?) && 2 <= |ts| <= 100)
    && (r.Ok? ==> |r.value| == |ts| && forall i :: 0 <= i < |ts| ==> rs[i] == Some(r.value[i]))
    && (forall i :: 0 <= i < |ts| && rs[i].None? && (forall j :: 0 <= j < i ==> rs[j].Some?) ==>
          r == Err("Invalid number: " + ts[i]))
    && ((forall i :: 0 <= i < |ts| ==> rs[i].Some?) && |ts| < 2 ==> r == Err("Please enter at least 2 numbers"))
    && ((forall i :: 0 <= i < |ts| ==> rs[i].Some?) && |ts| > 100 ==> r == Err("Maximum array size is 100"))
  }

  lemma CheckedReports(ts: seq<string>, rs: seq<Option<int>>)
    requires |rs| == |ts|
    ensures Reported(ts, rs, CheckCount(ParseAll(ts, rs)))
  {
    var bad := FirstBad(rs);
    if bad.None? {
      assert forall i :: 0 <= i < |ts| ==> rs[i].Some?;
    }
  }

  /**
   * The text is accepted exactly when every token reads as a number and there are 2 to
   * 100 of them; the list then holds the tokens' readings in order. The first token that
   * reads as NaN is reported before any count, and the count errors say which bound
   * failed.
   */
  lemma ParseArrayMeans(text: string)
    ensures Reported(Tokens(text), Readings(Tokens(text)), ParseArray(text))
  {
    CheckedReports(Tokens(text), Readings(Tokens(text)));
  }

  /** `Math.floor(draw * n)` for a draw `0 <= draw < 1`: a position of a list of length `n`. */
  function RandomIndex(draw: real, n: nat): (i: nat)
    requires 0.0 <= draw < 1.0 && 0 < n
    ensures i < n
  {
    assert draw * (n as real) < n as real;
    (draw * (n as real)).Floor
  }

  /** What the submit does, in order: the callbacks it calls and what it sets. */
  datatype Effect =
    | ChangeTarget(target: int)
    | SubmitArray(values: seq<int>)
    | SetError(message: string)
    | CloseDialog

  /**
   * `handleSubmit` on the array text `text` and the target text `targetText`, on a
   * searching page when `searching`; `draw` is the random number that picks the target
   * when none is given.
   */
  function HandleSubmit(text: string, targetText: string, searching: bool, draw: real): (effects: seq<Effect>)
    requires 0.0 <= draw < 1.0
    ensures effects != []
    ensures effects[|effects| - 1] == CloseDialog || (|effects| == 1 && effects[0].SetError?)
  {
    match ParseArray(text)
    case Err(e) => [SetError(e)]
    case Ok(vs) =>
      if searching && Trim(targetText) != "" then
        match ParseInt(Trim(targetText))
        case None => [SetError("Search target must be a valid number")]
        case Some(t) => [ChangeTarget(t), SubmitArray(vs), SetError(""), CloseDialog]
      else if searching then
        [ChangeTarget(vs[RandomIndex(draw, |vs|)]), SubmitArray(vs), SetError(""), CloseDialog]
      else
        [SubmitArray(vs), SetError(""), CloseDialog]
  }

  /**
   * A submit either only sets a non-empty error, calling no callback, or submits the
   * parsed list and then clears the error and closes the dialog; on a searching page it
   * first sets the target, which is the parsed target text or, for a blank target text,
   * an element of the list. An unreadable target text on a searching page is an error.
   */
  lemma HandleSubmitMeans(text: string, targetText: string, searching: bool, draw: real)
    requires 0.0 <= draw < 1.0
    ensures var effects, r := HandleSubmit(text, targetText, searching, draw), ParseArray(text);
      && (r.Err? ==> effects == [SetError(r.error)] && r.error != "")
      && (r.Ok? && searching && Trim(targetText) != "" && ParseInt(Trim(targetText)).None? ==>
            effects == [SetError("Search target must be a valid number")])
      && (r.Ok? && !(searching && Trim(targetText) != "" && ParseInt(Trim(targetText)).None?) ==>
            && |effects| == (if searching then 4 else 3)
            && effects[|effects| - 3..] == [SubmitArray(r.value), SetError(""), CloseDialog]
            && 2 <= |r.value| <= 100
            && (searching ==>
                  && effects[0].ChangeTarget?
                  && (Trim(targetText) != "" ==> Some(effects[0].target) == ParseInt(Trim(targetText)))
                  && (Trim(targetText) == "" ==> effects[0].target in r.value)))
  {
    var r := ParseArray(text);
    if r.Err? {
      var ts := Tokens(text);
      if ParseAll(ts, Readings(ts)).Err? {
        assert r.error[0] == 'I';
      }
    }
  }
}
