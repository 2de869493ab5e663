/**
 * Model of `utils/util.go`: the stateless helpers that turn quote data
 * (prices, market state, volumes, timestamps) into terminal text.
 *
 * Go's own library calls the helpers make are modelled in GoStrings and
 * GoStrconv. The host's clock and time zone, HTML entity decoding and the
 * floating-point number scaling are parameters.
 */
module Util {
  import opened GoStrings
  import opened GoStrconv

  // ---------------------------------------------------------------------
  // Direction classifier
  // ---------------------------------------------------------------------

  /** Price direction (Go numbers Flat, Down, Up as 0, 1, 2). */
  datatype Direction = Flat | Down | Up

  /**
   * The direction of the quote's regular-market price `last` against its
   * previous close: a strict three-way comparison.
   */
  function PriceDirection(last: real, close: real): (d: Direction)
    ensures d == Up <==> last > close
    ensures d == Down <==> last < close
    ensures d == Flat <==> last == close
  {
    if last > close then Up
    else if last < close then Down
    else Flat
  }

  // ---------------------------------------------------------------------
  // ANSI stylist
  // ---------------------------------------------------------------------

  /** The escape character, `ESC` in the source. */
  const Esc: string := "\U{1B}"

  /** The select-graphic-rendition sequence `ESC [ code m`. */
  function Sgr(code: string): string {
    Esc + "[" + code + "m"
  }

  lemma ItoaSmall()
    ensures Itoa(0) == "0" && Itoa(1) == "1"
  {
    assert FormatUint(0) == "0";
    assert FormatUint(1) == "1";
  }

  /** `Bold(s)`: `s` between the bold-on code 1 and the reset code 0. */
  function Bold(s: string): (r: string)
    ensures r == "\U{1B}[1m" + s + "\U{1B}[0m"
  {
    ItoaSmall();
    Sgr(Itoa(1)) + s + Sgr(Itoa(0))
  }

  // ---------------------------------------------------------------------
  // Market-state labels
  // ---------------------------------------------------------------------

  /** The trading-session states the quote reports; `Other` is any other value. */
  datatype MarketState = PrePre | Pre | Regular | Post | PostPost | Other

  /** `MktStateF`: the display label of a market state. */
  function MktStateF(m: MarketState): (name: string)
    ensures name in ["Open", "Pre-Market", "After-Hours", "Closed"]
    ensures name == "Open" <==> m == Regular
    ensures name == "Pre-Market" <==> m == Pre || m == PrePre
    ensures name == "After-Hours" <==> m == Post || m == PostPost
    ensures name == "Closed" <==> m == Other
  {
    match m
    case Regular => "Open"
    case Pre | PrePre => "Pre-Market"
    case Post | PostPost => "After-Hours"
    case Other => "Closed"
  }

  // ---------------------------------------------------------------------
  // Colour by direction
  // ---------------------------------------------------------------------

  /** The colour code: green 32 for Up, red 31 otherwise. */
  function ColorCode(d: Direction): string {
    if d == Up then "32" else "31"
  }

  /** The text Color splits: an upward move gains a leading "+". */
  function Signed(s: string, d: Direction): string {
    if d == Up then "+" + s else s
  }

  /** Every token between its own `pre` and `post`, nothing in between. */
  function WrapAll(parts: seq<string>, pre: string, post: string): string
    decreases |parts|
  {
    if parts == [] then ""
    else WrapAll(parts[..|parts| - 1], pre, post) + pre + parts[|parts| - 1] + post
  }

  /**
   * The layout Color gives a split text: the first token wrapped, one
   * space, then the remaining tokens wrapped and abutted.
   */
  function Layout(parts: seq<string>, pre: string, post: string): string
    requires |parts| >= 1
  {
    pre + parts[0] + post + " " + WrapAll(parts[1..], pre, post)
  }

  /** What `Color(s, d)` returns. */
  function ColorSpec(s: string, d: Direction): string {
    if d == Flat then s
    else Layout(Split(Signed(s, d), ' '), Sgr(ColorCode(d)), Sgr(Itoa(0)))
  }

  /**
   * `Color(s, d)`: Flat leaves `s` alone; otherwise the (signed) text is
   * split on spaces and each token is wrapped in its own colour pair,
   * with a single space after the first token only.
   */
  method Color(s: string, d: Direction) returns (out: string)
    ensures out == ColorSpec(s, d)
    ensures d == Flat ==> out == s
  {
    if d == Flat {
      return s;
    }
    var code := "31";
    var input := s;
    if d == Up {
      input := "+" + s;
      code := "32";
    }
    var parts := Split(input, ' ');
    out := "";
    var pre := Sgr(code);
    var post := Sgr(Itoa(0));
    for i := 0 to |parts|
      invariant i == 0 ==> out == ""
      invariant i > 0 ==> out == Layout(parts[..i], pre, post)
    {
      if i > 0 {
        LayoutSnoc(parts[..i], parts[i], pre, post);
        assert parts[..i] + [parts[i]] == parts[..i + 1];
      } else {
        LayoutFirst(parts, pre, post);
      }
      out := out + pre + parts[i] + post;
      if i == 0 {
        out := out + " ";
      }
    }
    assert parts[..|parts|] == parts;
    ColorSpecLayout(s, d);
    ItoaSmall();
  }

  /** The layout of the first token alone. */
  lemma LayoutFirst(parts: seq<string>, pre: string, post: string)
    requires |parts| >= 1
    ensures Layout(parts[..1], pre, post) == "" + pre + parts[0] + post + " "
  {
    assert parts[..1] == [parts[0]];
    LayoutSingle(parts[0], pre, post);
  }

  /** A further token is wrapped and appended. */
  lemma LayoutSnoc(parts: seq<string>, p: string, pre: string, post: string)
    requires |parts| >= 1
    ensures Layout(parts + [p], pre, post) == Layout(parts, pre, post) + pre + p + post
  {
    var q := parts + [p];
    assert q[0] == parts[0];
    assert q[1..] == parts[1..] + [p];
    assert (parts[1..] + [p])[..|parts[1..]|] == parts[1..];
  }

  lemma {:induction false} WrapAllCount(parts: seq<string>, pre: string, post: string, c: char)
    ensures CountChar(WrapAll(parts, pre, post), c)
         == |parts| * CountChar(pre + post, c) + SumCount(parts, c)
    decreases |parts|
  {
    if parts != [] {
      var init := parts[..|parts| - 1];
      var last := parts[|parts| - 1];
      WrapAllCount(init, pre, post, c);
      var w := WrapAll(init, pre, post);
      assert WrapAll(parts, pre, post) == w + (pre + last + post);
      CountCharAppend(w, pre + last + post, c);
      CountCharAppend(pre, last + post, c);
      CountCharAppend(last, post, c);
      CountCharAppend(pre, post, c);
      assert pre + last + post == pre + (last + post);
      MulSucc(|init|, CountChar(pre + post, c));
    }
  }

  lemma LayoutCount(parts: seq<string>, pre: string, post: string, c: char)
    requires |parts| >= 1
    ensures CountChar(Layout(parts, pre, post), c)
         == |parts| * CountChar(pre + post, c) + SumCount(parts, c) + CountChar(" ", c)
  {
    var rest := parts[1..];
    var k := CountChar(pre + post, c);
    WrappedCount(pre, parts[0], post, c);
    LayoutSplitCount(parts, pre, post, c);
    SumCountFirst(parts, c);
    WrapAllCount(rest, pre, post, c);
    assert |parts| == |rest| + 1;
    MulSucc(|rest|, k);
  }

  lemma WrappedCount(pre: string, p: string, post: string, c: char)
    ensures CountChar(pre + p + post, c) == CountChar(pre + post, c) + CountChar(p, c)
  {
    CountCharAppend(pre + p, post, c);
    CountCharAppend(pre, p, c);
    CountCharAppend(pre, post, c);
  }

  lemma LayoutSplitCount(parts: seq<string>, pre: string, post: string, c: char)
    requires |parts| >= 1
    ensures CountChar(Layout(parts, pre, post), c)
         == CountChar(pre + parts[0] + post, c) + CountChar(" ", c) + CountChar(WrapAll(parts[1..], pre, post), c)
  {
    var head := pre + parts[0] + post;
    var w := WrapAll(parts[1..], pre, post);
    assert Layout(parts, pre, post) == head + (" " + w);
    CountCharAppend(head, " " + w, c);
    CountCharAppend(" ", w, c);
  }

  /** The sign added for Up is never a space and never an escape character. */
  lemma SignedCount(s: string, d: Direction, c: char)
    ensures CountChar(Signed(s, d), c) == CountChar(s, c) + (if d == Up && c == '+' then 1 else 0)
  {
    if d == Up {
      CountCharAppend("+", s, c);
    }
  }

  /**
   * Character census of Color's output: every token brings one start and
   * one stop sequence, the single inserted space is the only space, and
   * every other character of the (signed) input appears exactly as often.
   */
  lemma ColorCharCount(s: string, d: Direction, c: char)
    requires d != Flat
    ensures CountChar(ColorSpec(s, d), c)
         == (CountChar(s, ' ') + 1) * CountChar(Sgr(ColorCode(d)) + Sgr("0"), c)
          + (if c == ' ' then 1 else CountChar(Signed(s, d), c))
  {
    ItoaSmall();
    var input := Signed(s, d);
    var parts := Split(input, ' ');
    LayoutCount(parts, Sgr(ColorCode(d)), Sgr("0"), c);
    SplitCount(input, ' ');
    SignedCount(s, d, ' ');
    if c == ' ' {
      SplitSepFree(input, ' ');
      SumCountAbsent(parts, ' ');
    } else {
      SplitSumCount(input, ' ', c);
    }
  }

  /**
   * Color writes one colour-start marker per token, that is one more than
   * the spaces in its input (the escape characters already in `s` aside).
   */
  lemma ColorMarkerCount(s: string, d: Direction)
    requires d != Flat
    ensures CountChar(ColorSpec(s, d), '\U{1B}') == 2 * (CountChar(s, ' ') + 1) + CountChar(s, '\U{1B}')
  {
    var n := CountChar(s, ' ');
    var k := CountChar(Sgr(ColorCode(d)) + Sgr("0"), '\U{1B}');
    ColorCharCount(s, d, '\U{1B}');
    SignedCount(s, d, '\U{1B}');
    SgrPairEscCount(d);
    assert (n + 1) * k == 2 * (n + 1);
  }

  /** The colour pair holds two escape characters. */
  lemma SgrPairEscCount(d: Direction)
    ensures CountChar(Sgr(ColorCode(d)) + Sgr("0"), '\U{1B}') == 2
  {
    SgrEscCount(ColorCode(d));
    SgrEscCount("0");
    CountCharAppend(Sgr(ColorCode(d)), Sgr("0"), '\U{1B}');
  }

  /** An escape sequence holds exactly one escape character. */
  lemma SgrEscCount(code: string)
    requires '\U{1B}' !in code
    ensures CountChar(Sgr(code), '\U{1B}') == 1
  {
    var e := '\U{1B}';
    assert Sgr(code) == (Esc + "[") + (code + "m");
    CountCharAppend(Esc + "[", code + "m", e);
    CountCharAppend(Esc, "[", e);
    CountCharAppend(code, "m", e);
    CountCharZero(code, e);
    CountCharZero("[", e);
    CountCharZero("m", e);
    assert Esc[..0] == [];
  }

  /** The colour pair holds no space. */
  lemma SgrPairSpaceFree(d: Direction)
    ensures CountChar(Sgr(ColorCode(d)) + Sgr("0"), ' ') == 0
  {
    assert ' ' !in Sgr(ColorCode(d)) + Sgr("0");
    CountCharZero(Sgr(ColorCode(d)) + Sgr("0"), ' ');
  }

  /** However many spaces the input has, Color's output has exactly one. */
  lemma ColorOneSpace(s: string, d: Direction)
    requires d != Flat
    ensures CountChar(ColorSpec(s, d), ' ') == 1
  {
    var n := CountChar(s, ' ');
    var k := CountChar(Sgr(ColorCode(d)) + Sgr("0"), ' ');
    ColorCharCount(s, d, ' ');
    SgrPairSpaceFree(d);
    assert (n + 1) * k == 0;
  }

  /** The three escape sequences Color writes, spelled out. */
  lemma SgrCodes()
    ensures Sgr("31") == "\U{1B}[31m" && Sgr("32") == "\U{1B}[32m" && Sgr("0") == "\U{1B}[0m"
  {
  }

  /** Down colours the text as it is, in red. */
  lemma ColorDown(s: string)
    ensures ColorSpec(s, Down) == Layout(Split(s, ' '), "\U{1B}[31m", "\U{1B}[0m")
  {
    ItoaSmall();
    SgrCodes();
  }

  /** Up colours the text in green with "+" on the first token only. */
  lemma ColorUp(s: string)
    ensures ColorSpec(s, Up) == Layout(PrependFirst("+", Split(s, ' ')), "\U{1B}[32m", "\U{1B}[0m")
  {
    ItoaSmall();
    SgrCodes();
    SplitPrepend("+", s, ' ');
  }

  /** One token: wrapped, then the space. */
  lemma LayoutSingle(p: string, pre: string, post: string)
    ensures Layout([p], pre, post) == pre + p + post + " "
  {
    assert [p][1..] == [];
  }

  /** A single red token comes out wrapped and followed by one trailing space. */
  lemma ColorDownSingleToken(s: string)
    requires ' ' !in s
    ensures ColorSpec(s, Down) == "\U{1B}[31m" + s + "\U{1B}[0m "
  {
    ColorDown(s);
    SplitNoSep(s, ' ');
    LayoutSingle(s, "\U{1B}[31m", "\U{1B}[0m");
  }

  /** A single green token gains the sign, its colour pair and one trailing space. */
  lemma ColorUpSingleToken(s: string)
    requires ' ' !in s
    ensures ColorSpec(s, Up) == "\U{1B}[32m" + "+" + s + "\U{1B}[0m "
  {
    ColorUp(s);
    SplitNoSep(s, ' ');
    SignedSingleLayout(s, "\U{1B}[32m", "\U{1B}[0m");
  }

  lemma SignedSingleLayout(s: string, pre: string, post: string)
    ensures Layout(PrependFirst("+", [s]), pre, post) == pre + "+" + s + post + " "
  {
    assert PrependFirst("+", [s]) == ["+" + s];
    LayoutSingle("+" + s, pre, post);
  }

  /**
   * Each token wrapped and the tokens joined by single spaces: the layout
   * that would keep the input's spacing.
   */
  function JoinWrapped(parts: seq<string>, pre: string, post: string): string
    requires |parts| >= 1
    decreases |parts|
  {
    if |parts| == 1 then pre + parts[0] + post
    else JoinWrapped(parts[..|parts| - 1], pre, post) + " " + pre + parts[|parts| - 1] + post
  }

  /** Joining n space-free tokens by single spaces writes n - 1 spaces. */
  lemma {:induction false} JoinWrappedSpaces(parts: seq<string>, pre: string, post: string)
    requires |parts| >= 1 && ' ' !in pre && ' ' !in post
    requires forall i :: 0 <= i < |parts| ==> ' ' !in parts[i]
    ensures CountChar(JoinWrapped(parts, pre, post), ' ') == |parts| - 1
    decreases |parts|
  {
    var last := parts[|parts| - 1];
    var w := pre + last + post;
    assert ' ' !in w;
    CountCharZero(w, ' ');
    if |parts| > 1 {
      var init := parts[..|parts| - 1];
      JoinWrappedSpaces(init, pre, post);
      var j := JoinWrapped(init, pre, post);
      assert JoinWrapped(parts, pre, post) == j + (" " + w);
      CountCharAppend(j, " " + w, ' ');
      CountCharAppend(" ", w, ' ');
    }
  }

  /** Color's output is the layout of the signed text's tokens. */
  lemma ColorSpecLayout(s: string, d: Direction)
    requires d != Flat
    ensures ColorSpec(s, d) == Layout(Split(Signed(s, d), ' '), Sgr(ColorCode(d)), Sgr("0"))
  {
    ItoaSmall();
  }

  /** With two tokens the layout and the space-joined form coincide. */
  lemma LayoutTwo(parts: seq<string>, pre: string, post: string)
    requires |parts| == 2
    ensures Layout(parts, pre, post) == JoinWrapped(parts, pre, post)
  {
    assert parts[1..] == [parts[1]];
    assert [parts[1]][..0] == [];
    assert parts[..1] == [parts[0]];
    assert WrapAll([parts[1]], pre, post) == pre + parts[1] + post;
  }

  /** The signed text has one token more than `s` has spaces. */
  lemma SignedTokenCount(s: string, d: Direction)
    ensures |Split(Signed(s, d), ' ')| == CountChar(s, ' ') + 1
  {
    SplitCount(Signed(s, d), ' ');
    SignedCount(s, d, ' ');
  }

  /** Joining the coloured tokens by spaces writes one space fewer than there are tokens. */
  lemma ColorJoinedSpaces(s: string, d: Direction)
    ensures var parts := Split(Signed(s, d), ' ');
      CountChar(JoinWrapped(parts, Sgr(ColorCode(d)), Sgr("0")), ' ') == |parts| - 1
  {
    var parts := Split(Signed(s, d), ' ');
    var pre, post := Sgr(ColorCode(d)), Sgr("0");
    SplitSepFree(Signed(s, d), ' ');
    assert ' ' !in pre && ' ' !in post;
    JoinWrappedSpaces(parts, pre, post);
  }

  /**
   * Color keeps the input's spacing exactly when the input (after the sign)
   * has two tokens: one token gains a trailing space, and from the third
   * token on the spaces are dropped.
   */
  lemma ColorKeepsSpacingIffTwoTokens(s: string, d: Direction)
    requires d != Flat
    ensures var parts := Split(Signed(s, d), ' ');
      ColorSpec(s, d) == JoinWrapped(parts, Sgr(ColorCode(d)), Sgr("0"))
      <==> CountChar(s, ' ') == 1
  {
    var parts := Split(Signed(s, d), ' ');
    var pre, post := Sgr(ColorCode(d)), Sgr("0");
    ColorSpecLayout(s, d);
    SignedTokenCount(s, d);
    ColorJoinedSpaces(s, d);
    ColorOneSpace(s, d);
    if |parts| == 2 {
      LayoutTwo(parts, pre, post);
    }
  }

  // ---------------------------------------------------------------------
  // Number formatting
  // ---------------------------------------------------------------------

  /** Go's `uint64(n)`: a negative `int` wraps around modulo 2^64. */
  function ToUint64(n: Int): (u: nat)
    ensures u <= MaxUint64
    ensures n >= 0 ==> u == n
    ensures n < 0 ==> u == n + MaxUint64 + 1
  {
    if n >= 0 then n else n + MaxUint64 + 1
  }

  /**
   * `NumberFancyF(n)`: below 1000 (after the conversion to uint64) the
   * plain decimal; otherwise the suffixed, scaled rendering, which is the
   * parameter `scaled`.
   */
  function NumberFancyF(n: Int, scaled: nat -> string): (r: string)
    ensures 0 <= n < 1000 ==> r == Itoa(n)
    ensures n >= 1000 ==> r == scaled(n)
    ensures n < 0 ==> r == scaled(n + MaxUint64 + 1)
  {
    var u := ToUint64(n);
    if u < 1000 then FormatUint(u) else scaled(u)
  }

  // ---------------------------------------------------------------------
  // HTML clean-up
  // ---------------------------------------------------------------------

  const Nbsp: string := "&nbsp;"

  /**
   * `Strip(s)`: every "&nbsp;" removed in one left-to-right pass, then the
   * entities decoded by `unescape` (Go's `html.UnescapeString`).
   */
  function Strip(s: string, unescape: string -> string): (r: string)
    ensures !Contains(s, Nbsp) ==> r == unescape(s)
  {
    unescape(RemoveAll(s, Nbsp))
  }

  /** One pass is not enough to leave no "&nbsp;": removal can expose a new one. */
  lemma StripSinglePass()
    ensures RemoveAll("&nb&nbsp;sp;", Nbsp) == Nbsp
  {
    var s := "&nb&nbsp;sp;";
    assert s[3] != Nbsp[3];
    RemoveAllSkip(s, Nbsp);
    assert s[1..] == "nb&nbsp;sp;";
    RemoveFromN();
  }

  lemma RemoveFromN()
    ensures RemoveAll("nb&nbsp;sp;", Nbsp) == "nbsp;"
  {
    var s := "nb&nbsp;sp;";
    assert s[0] != Nbsp[0];
    RemoveAllSkip(s, Nbsp);
    assert s[1..] == "b&nbsp;sp;";
    RemoveFromB();
  }

  lemma RemoveFromB()
    ensures RemoveAll("b&nbsp;sp;", Nbsp) == "bsp;"
  {
    var s := "b&nbsp;sp;";
    assert s[0] != Nbsp[0];
    RemoveAllSkip(s, Nbsp);
    assert s[1..] == "&nbsp;sp;";
    RemoveInner();
  }

  /** The inner occurrence is removed and what follows it is kept. */
  lemma RemoveInner()
    ensures RemoveAll("&nbsp;sp;", Nbsp) == "sp;"
  {
    var s := "&nbsp;sp;";
    RemoveAllHit(s, Nbsp);
    assert s[6..] == "sp;";
    assert !Contains("sp;", Nbsp);
  }

  // ---------------------------------------------------------------------
  // Dates
  // ---------------------------------------------------------------------

  type Month = m: int | 1 <= m <= 12 witness 1
  type Day = d: int | 1 <= d <= 31 witness 1
  type Hour = h: int | 0 <= h < 24
  type Minute = m: int | 0 <= m < 60
  type Second = s: int | 0 <= s < 60

  /** The calendar and clock fields of a `time.Time` in the host's time zone. */
  datatype LocalTime = LocalTime(year: Int, month: Month, day: Day, hour: Hour, minute: Minute, second: Second)

  /** fmt's "%02d" on a field below 100: two digits, zero padded. */
  function Pad2(n: nat): (r: string)
    requires n < 100
    ensures |r| == 2 && AllDigits(r) && DigitsValue(r) == n
  {
    if n < 10 then
      var r := "0" + Itoa(n);
      assert r[..1] == "0";
      r
    else
      assert FormatUint(n) == FormatUint(n / 10) + [('0' as int + n % 10) as char];
      Itoa(n)
  }

  /** "%02d:%02d:%02d" on the clock fields. */
  function ClockText(t: LocalTime): (r: string)
    ensures |r| == 8 && r[2] == ':' && r[5] == ':'
  {
    Pad2(t.hour) + ":" + Pad2(t.minute) + ":" + Pad2(t.second)
  }

  /** "%02d/%02d/%d" on the month, day and year. */
  function CalendarText(t: LocalTime): (r: string)
    ensures |r| >= 7 && r[2] == '/' && r[5] == '/'
  {
    Pad2(t.month) + "/" + Pad2(t.day) + "/" + Itoa(t.year)
  }

  /**
   * `DateF(timestamp)`: "--" for the zero timestamp and for no other;
   * otherwise "HH:MM:SS MM/DD/YYYY", where `local` is `time.Unix` read in
   * the host's time zone.
   */
  function DateF(timestamp: Int, local: Int -> LocalTime): (r: string)
    ensures r == "--" <==> timestamp == 0
    ensures timestamp != 0 ==>
      |r| >= 16 && r[2] == ':' && r[5] == ':' && r[8] == ' ' && r[11] == '/' && r[14] == '/'
  {
    if timestamp == 0 then "--"
    else
      var t := local(timestamp);
      ClockText(t) + " " + CalendarText(t)
  }

  /** `DateFS(timestamp)`: "--" for the zero timestamp only; otherwise "MM/DD/YYYY". */
  function DateFS(timestamp: Int, local: Int -> LocalTime): (r: string)
    ensures r == "--" <==> timestamp == 0
    ensures timestamp != 0 ==> |r| >= 7 && r[2] == '/' && r[5] == '/'
  {
    if timestamp == 0 then "--"
    else CalendarText(local(timestamp))
  }

  /** The long form is the clock, one space, then the short form. */
  lemma DateFExtendsDateFS(timestamp: Int, local: Int -> LocalTime)
    requires timestamp != 0
    ensures DateF(timestamp, local)[..9] == ClockText(local(timestamp)) + " "
    ensures DateF(timestamp, local)[9..] == DateFS(timestamp, local)
  {
    var t := local(timestamp);
    var clock := ClockText(t) + " ";
    assert DateF(timestamp, local) == clock + CalendarText(t);
  }

  // ---------------------------------------------------------------------
  // Scalar conversions
  // ---------------------------------------------------------------------

  /**
   * `ToInt(value)`: Atoi with its error dropped. A well-formed decimal
   * gives its value (clamped to `int`); anything else gives 0, or a bound
   * of `int` when the digits after its sign pass 2^64 - 1 before the first
   * other character.
   */
  function ToInt(value: string): (i: Int)
    ensures WellFormed(value) ==> i == Clamp(SignedValue(value))
    ensures !WellFormed(value) ==> i == 0 || i == MaxInt || i == MinInt
    ensures !WellFormed(value) && |value| < 20 ==> i == 0
    ensures !WellFormed(value) && i != 0 ==>
      value != [] && i == (if value[0] == '-' then MinInt else MaxInt)
    ensures !WellFormed(value) ==> (i != 0 <==> Overflows(Magnitude(value)))
  {
    Atoi(value).value
  }

  /** `ToString(v)`: the decimal text of `v`. */
  function ToString(v: Int): (r: string)
    ensures WellFormed(r) && SignedValue(r) == v
    ensures r[0] != '+' && (r[0] == '-' <==> v < 0)
    ensures var m := if v < 0 then r[1..] else r; |m| > 1 ==> m[0] != '0'
  {
    Itoa(v)
  }

  /** Printing then parsing gives the number back. */
  lemma ToIntToString(v: Int)
    ensures ToInt(ToString(v)) == v
  {
  }
}
