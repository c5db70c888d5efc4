/**
 * The colour names and colour-set names of the client utilities
 * (colors.cpp): eight named colours, four named sets of them, `str_to_col`
 * that reads a colour name or a hex code, and `str_to_cols` that reads a
 * comma-separated list of names, set names and codes into a sorted vector
 * without duplicates.
 *
 * The `std::set<rgba_color>` that str_to_cols fills is modelled as the
 * vector it is finally copied into: a sequence kept strictly increasing
 * under rgba_color's operator<.
 */
module Colors {
  import opened Words
  import opened RgbaColor

  /** The largest channel value. */
  const CHANNEL_B_MAX: u8 := 0xff

  const WHITE := Color(CHANNEL_B_MAX, CHANNEL_B_MAX, CHANNEL_B_MAX, CHANNEL_B_MAX)
  const BLACK := Color(0, 0, 0, CHANNEL_B_MAX)
  const RED := Color(CHANNEL_B_MAX, 0, 0, CHANNEL_B_MAX)
  const BLUE := Color(0, 0, CHANNEL_B_MAX, CHANNEL_B_MAX)
  const GREEN := Color(0, CHANNEL_B_MAX, 0, CHANNEL_B_MAX)
  const YELLOW := Color(CHANNEL_B_MAX, CHANNEL_B_MAX, 0, CHANNEL_B_MAX)
  const CYAN := Color(0, CHANNEL_B_MAX, CHANNEL_B_MAX, CHANNEL_B_MAX)
  const MAGENTA := Color(CHANNEL_B_MAX, 0, CHANNEL_B_MAX, CHANNEL_B_MAX)

  const BLACK_WHITE := [BLACK, WHITE]
  const REAL_COLORS := [RED, BLUE, GREEN, YELLOW, CYAN, MAGENTA]
  const ALL_COLORS := [BLACK, WHITE, RED, BLUE, GREEN, YELLOW, CYAN, MAGENTA]
  const MOST_COLORS := [WHITE, RED, BLUE, GREEN, YELLOW, CYAN, MAGENTA]

  const COLOR_SETS_MAP: map<string, seq<Color>> :=
    map["b_w" := BLACK_WHITE, "real" := REAL_COLORS, "all" := ALL_COLORS, "most" := MOST_COLORS]

  const COLOR_MAP: map<string, Color> :=
    map["black" := BLACK, "white" := WHITE, "red" := RED, "blue" := BLUE, "green" := GREEN,
        "yellow" := YELLOW, "cyan" := CYAN, "magenta" := MAGENTA]

  /**
   * str_to_col: the named colour when `s` is a name, otherwise the colour
   * the hex code `s` spells (see RgbaColor.FromCode, whose six-digit form
   * leaves alpha as `priorAlpha`). No name is also a hex code, so a name
   * never shadows a code.
   */
  function StrToCol(s: string, priorAlpha: u8): (r: Result<Color>)
    ensures s in COLOR_MAP ==> r == Ok(COLOR_MAP[s])
    ensures r.Ok? <==> s in COLOR_MAP || FromCode(s, priorAlpha).Ok?
    ensures r.Ok? && s !in COLOR_MAP ==> r == FromCode(s, priorAlpha)
  {
    if s in COLOR_MAP then Ok(COLOR_MAP[s]) else FromCode(s, priorAlpha)
  }

  /** None of the colour names is a hex code. */
  lemma NamesAreNotCodes(s: string, priorAlpha: u8)
    requires s in COLOR_MAP
    ensures !FromCode(s, priorAlpha).Ok?
  {
    assert !IsXDigit('l') && !IsXDigit('h') && !IsXDigit('r') && !IsXDigit('g');
    assert !IsXDigit('y') && !IsXDigit('n') && !IsXDigit('m');
    if s == "black" || s == "blue" {
      assert StripHash(s)[1] == 'l';
    } else if s == "white" {
      assert StripHash(s)[1] == 'h';
    } else if s == "red" || s == "green" {
      assert |StripHash(s)| != 6 && |StripHash(s)| != 8;
    } else if s == "yellow" || s == "cyan" {
      assert StripHash(s)[0] == 'y' || StripHash(s)[1] == 'y';
    } else {
      assert s == "magenta";
      assert StripHash(s)[0] == 'm';
    }
  }

  // ---------------------------------------------------------------------
  // The set of colours, kept in order

  function Elements(xs: seq<Color>): set<Color> {
    set x | x in xs
  }

  /** Strictly increasing under operator< (stated through the colour keys). */
  predicate Increasing(xs: seq<Color>) {
    forall i, j :: 0 <= i < j < |xs| ==> Key(xs[i]) < Key(xs[j])
  }

  lemma IncreasingIsSorted(xs: seq<Color>)
    requires Increasing(xs)
    ensures forall i, j :: 0 <= i < j < |xs| ==> Less(xs[i], xs[j])
  {
    forall i, j | 0 <= i < j < |xs|
      ensures Less(xs[i], xs[j])
    {
      LessIsKeyOrder(xs[i], xs[j]);
    }
  }

  /** std::set::insert: `c` joins the set unless an equal colour is already there. */
  function Insert(xs: seq<Color>, c: Color): (ys: seq<Color>)
    ensures |ys| <= |xs| + 1
    ensures c in ys && forall x :: x in xs ==> x in ys
  {
    if xs == [] then [c]
    else if Less(c, xs[0]) then [c] + xs
    else if Equal(c, xs[0]) then xs
    else [xs[0]] + Insert(xs[1..], c)
  }

  /** Inserting keeps the sequence increasing and adds exactly `c` to its elements. */
  lemma {:induction false} InsertSpec(xs: seq<Color>, c: Color)
    requires Increasing(xs)
    ensures Increasing(Insert(xs, c)) && Elements(Insert(xs, c)) == Elements(xs) + {c}
  {
    if xs != [] {
      LessIsKeyOrder(c, xs[0]);
      if Less(c, xs[0]) {
        assert Elements([c] + xs) == {c} + Elements(xs);
      } else if !Equal(c, xs[0]) {
        if Key(xs[0]) == Key(c) {
          KeyInjective(xs[0], c);
        }
        InsertSpec(xs[1..], c);
        ConsIncreasing(xs, Insert(xs[1..], c), c);
      }
    }
  }

  /** Putting the head of `xs` back in front of a larger sequence of its tail's elements. */
  lemma ConsIncreasing(xs: seq<Color>, rest: seq<Color>, c: Color)
    requires xs != [] && Increasing(xs) && Increasing(rest)
    requires Key(xs[0]) < Key(c) && Elements(rest) == Elements(xs[1..]) + {c}
    ensures Increasing([xs[0]] + rest)
    ensures Elements([xs[0]] + rest) == Elements(xs) + {c}
  {
    var ys := [xs[0]] + rest;
    forall i, j | 0 <= i < j < |ys|
      ensures Key(ys[i]) < Key(ys[j])
    {
      if i > 0 {
        assert ys[i] == rest[i - 1] && ys[j] == rest[j - 1];
      } else {
        assert ys[j] == rest[j - 1] && ys[j] in Elements(rest);
        AboveHead(xs, c, ys[j]);
      }
    }
    assert Elements(xs) == {xs[0]} + Elements(xs[1..]) by {
      assert xs == [xs[0]] + xs[1..];
    }
    assert Elements(ys) == {xs[0]} + Elements(rest);
  }

  /** Every element of the tail, and `c`, lies above the head. */
  lemma AboveHead(xs: seq<Color>, c: Color, y: Color)
    requires xs != [] && Increasing(xs) && Key(xs[0]) < Key(c)
    requires y in Elements(xs[1..]) + {c}
    ensures Key(xs[0]) < Key(y)
  {
    if y != c {
      var k :| 0 <= k < |xs[1..]| && xs[1..][k] == y;
      assert xs[k + 1] == y;
    }
  }

  /** The first element of an increasing sequence is its least, and occurs nowhere else. */
  lemma HeadIsLeast(xs: seq<Color>, c: Color)
    requires Increasing(xs) && xs != [] && c in Elements(xs)
    ensures Key(xs[0]) <= Key(c)
    ensures Elements(xs[1..]) == Elements(xs) - {xs[0]}
  {
    assert xs == [xs[0]] + xs[1..];
    forall y | y in xs[1..]
      ensures Key(xs[0]) < Key(y)
    {
      var k :| 0 <= k < |xs[1..]| && xs[1..][k] == y;
      assert xs[k + 1] == y;
    }
  }

  /** Two increasing sequences with the same elements are the same sequence. */
  lemma {:induction false} IncreasingUnique(xs: seq<Color>, ys: seq<Color>)
    requires Increasing(xs) && Increasing(ys) && Elements(xs) == Elements(ys)
    ensures xs == ys
    decreases |xs|
  {
    if ys != [] {
      assert ys[0] in Elements(xs);
    }
    if xs != [] {
      assert xs[0] in Elements(ys) && ys != [];
      assert ys[0] in Elements(xs);
      HeadIsLeast(xs, ys[0]);
      HeadIsLeast(ys, xs[0]);
      if xs[0] != ys[0] {
        KeyInjective(xs[0], ys[0]);
      }
      IncreasingUnique(xs[1..], ys[1..]);
      assert xs == [xs[0]] + xs[1..] && ys == [ys[0]] + ys[1..];
    }
  }

  // ---------------------------------------------------------------------
  // Splitting the input the way getline(stream, token, ',') does

  /** The position of the first `d` in `s`, or |s| when there is none. */
  function IndexOf(s: string, d: char): (i: nat)
    ensures i <= |s| && d !in s[..i] && (i < |s| ==> s[i] == d)
  {
    if s == [] then 0
    else if s[0] == d then 0
    else
      assert s[..IndexOf(s[1..], d) + 1] == [s[0]] + s[1..][..IndexOf(s[1..], d)];
      IndexOf(s[1..], d) + 1
  }

  /**
   * The tokens successive getline calls extract: the text up to each ','
   * in turn, and the text after the last ',' when it is not empty (a
   * trailing ',' ends the stream without another token).
   */
  function Tokens(s: string): (ts: seq<string>)
    ensures ts == [] <==> s == []
    ensures |ts| <= |s|
    decreases |s|
  {
    if s == [] then []
    else
      var i := IndexOf(s, ',');
      if i == |s| then [s] else [s[..i]] + Tokens(s[i + 1..])
  }

  /** The empty string has no token. */
  lemma NoTokens()
    ensures Tokens("") == []
  {
  }

  /** Text without a ',' followed by a ',' is read as one token, then the rest. */
  lemma CommaSplit(pre: string, post: string)
    requires ',' !in pre
    ensures Tokens(pre + "," + post) == [pre] + Tokens(post)
  {
    var s := pre + "," + post;
    assert s[..|pre|] == pre && s[|pre|] == ',';
    assert IndexOf(s, ',') == |pre|;
    assert s[|pre| + 1..] == post;
  }

  /** Text split at its first ',': the comma-free text before it, the comma, and the rest. */
  lemma FirstComma(pre: string, i: nat)
    requires i == IndexOf(pre, ',') && i < |pre|
    ensures ',' !in pre[..i] && pre == pre[..i] + "," + pre[i + 1..]
  {
    var joined := pre[..i] + "," + pre[i + 1..];
    assert |joined| == |pre|;
    forall k | 0 <= k < |pre|
      ensures joined[k] == pre[k]
    {
    }
  }

  /** Two commas in a row right after comma-free text give an empty token. */
  lemma EmptyTokenFirst(pre: string, post: string)
    requires ',' !in pre
    ensures "" in Tokens(pre + ",," + post)
  {
    var a := "," + post;
    assert "" + "," + post == a;
    CommaSplit("", post);
    var ta := Tokens(a);
    assert ta == [""] + Tokens(post);
    assert pre + "," + a == pre + ",," + post;
    CommaSplit(pre, a);
    assert Tokens(pre + ",," + post) == [pre] + ta;
    assert ([pre] + ta)[1] == "";
  }

  /** Two commas in a row, wherever they stand, give an empty token. */
  lemma {:induction false} EmptyToken(pre: string, post: string)
    ensures "" in Tokens(pre + ",," + post)
    decreases |pre|
  {
    if IndexOf(pre, ',') == |pre| {
      assert pre[..|pre|] == pre;
      EmptyTokenFirst(pre, post);
    } else {
      var i := IndexOf(pre, ',');
      FirstComma(pre, i);
      var head, rest := pre[..i], pre[i + 1..];
      var tail := rest + ",," + post;
      assert pre + ",," + post == head + "," + tail;
      CommaSplit(head, tail);
      EmptyToken(rest, post);
    }
  }

  // ---------------------------------------------------------------------
  // What the tokens contribute

  /** A set name contributes its whole set; anything else one colour, or the error str_to_col throws. */
  function TokenColors(t: string, priorAlpha: u8): (r: Result<seq<Color>>)
    ensures t in COLOR_SETS_MAP ==> r == Ok(COLOR_SETS_MAP[t])
    ensures t !in COLOR_SETS_MAP ==> r.Ok? == StrToCol(t, priorAlpha).Ok?
  {
    if t in COLOR_SETS_MAP then Ok(COLOR_SETS_MAP[t])
    else match StrToCol(t, priorAlpha)
      case Ok(c) => Ok([c])
      case InvalidArgument => InvalidArgument
  }

  /** The colours the tokens contribute, token by token, or the first error. */
  function Collected(ts: seq<string>, priorAlpha: u8): Result<set<Color>>
    decreases |ts|
  {
    if ts == [] then Ok({})
    else match Collected(ts[..|ts| - 1], priorAlpha)
      case InvalidArgument => InvalidArgument
      case Ok(cs) =>
        match TokenColors(ts[|ts| - 1], priorAlpha)
        case InvalidArgument => InvalidArgument
        case Ok(v) => Ok(cs + Elements(v))
  }

  /** Some token of `ts` contributes `c`. */
  ghost predicate Contributes(ts: seq<string>, priorAlpha: u8, c: Color) {
    exists t :: t in ts && TokenColors(t, priorAlpha).Ok? && c in TokenColors(t, priorAlpha).value
  }

  /**
   * The list is read without error exactly when every token is read without
   * error, and then its colours are the union of what each token contributes.
   */
  lemma {:induction false} CollectedIsUnion(ts: seq<string>, priorAlpha: u8)
    ensures Collected(ts, priorAlpha).Ok? <==> forall t :: t in ts ==> TokenColors(t, priorAlpha).Ok?
    ensures Collected(ts, priorAlpha).Ok? ==>
      forall c :: c in Collected(ts, priorAlpha).value <==> Contributes(ts, priorAlpha, c)
    decreases |ts|
  {
    if ts != [] {
      var init, last := ts[..|ts| - 1], ts[|ts| - 1];
      assert ts == init + [last];
      CollectedIsUnion(init, priorAlpha);
      if Collected(ts, priorAlpha).Ok? {
        forall c
          ensures c in Collected(ts, priorAlpha).value <==> Contributes(ts, priorAlpha, c)
        {
          if c in Collected(init, priorAlpha).value {
            var t :| t in init && TokenColors(t, priorAlpha).Ok? && c in TokenColors(t, priorAlpha).value;
            assert t in ts;
          } else if c in TokenColors(last, priorAlpha).value {
            assert last in ts;
          }
        }
      }
    }
  }

  /** A colour some token of `ts1` contributes is contributed by `ts2` when `ts2` has every token of `ts1`. */
  lemma ContributesTransfer(ts1: seq<string>, ts2: seq<string>, priorAlpha: u8, c: Color)
    requires forall t :: t in ts1 ==> t in ts2
    requires Contributes(ts1, priorAlpha, c)
    ensures Contributes(ts2, priorAlpha, c)
  {
    var t :| t in ts1 && TokenColors(t, priorAlpha).Ok? && c in TokenColors(t, priorAlpha).value;
    assert t in ts2;
  }

  /** The colours read depend only on which tokens occur, not on their order or repetition. */
  lemma OrderDoesNotMatter(ts1: seq<string>, ts2: seq<string>, priorAlpha: u8)
    requires forall t :: t in ts1 <==> t in ts2
    ensures Collected(ts1, priorAlpha) == Collected(ts2, priorAlpha)
  {
    var r1, r2 := Collected(ts1, priorAlpha), Collected(ts2, priorAlpha);
    CollectedIsUnion(ts1, priorAlpha);
    CollectedIsUnion(ts2, priorAlpha);
    assert r1.Ok? <==> r2.Ok?;
    if r1.Ok? {
      forall c
        ensures Contributes(ts1, priorAlpha, c) <==> Contributes(ts2, priorAlpha, c)
      {
        if Contributes(ts1, priorAlpha, c) {
          ContributesTransfer(ts1, ts2, priorAlpha, c);
        }
        if Contributes(ts2, priorAlpha, c) {
          ContributesTransfer(ts2, ts1, priorAlpha, c);
        }
      }
      assert r1.value == r2.value;
    }
  }

  /** One token that throws makes the whole list throw. */
  lemma TokenFailure(ts: seq<string>, t: string, priorAlpha: u8)
    requires t in ts && !TokenColors(t, priorAlpha).Ok?
    ensures Collected(ts, priorAlpha) == InvalidArgument
  {
    CollectedIsUnion(ts, priorAlpha);
  }

  /** An empty token makes the whole list throw, through the hex parser. */
  lemma EmptyTokenThrows(ts: seq<string>, priorAlpha: u8)
    requires "" in ts
    ensures Collected(ts, priorAlpha) == InvalidArgument
  {
    assert !TokenColors("", priorAlpha).Ok?;
    TokenFailure(ts, "", priorAlpha);
  }

  // ---------------------------------------------------------------------
  // str_to_cols

  /** The loop that inserts every colour of a named set. */
  method InsertAll(colors: seq<Color>, v: seq<Color>) returns (result: seq<Color>)
    requires Increasing(colors)
    ensures Increasing(result) && Elements(result) == Elements(colors) + Elements(v)
  {
    result := colors;
    for j := 0 to |v|
      invariant Increasing(result) && Elements(result) == Elements(colors) + Elements(v[..j])
    {
      InsertSpec(result, v[j]);
      result := Insert(result, v[j]);
      assert Elements(v[..j + 1]) == Elements(v[..j]) + {v[j]} by {
        assert v[..j + 1] == v[..j] + [v[j]];
      }
    }
    assert v[..|v|] == v;
  }

  /** One getline call: the token up to the first ',' and the text after it. */
  lemma NextToken(rest: string)
    requires rest != []
    ensures var i := IndexOf(rest, ',');
      Tokens(rest) == [rest[..i]] + Tokens(if i == |rest| then [] else rest[i + 1..])
  {
    var i := IndexOf(rest, ',');
    if i == |rest| {
      assert rest[..i] == rest;
      assert Tokens([]) == [];
    }
  }

  /**
   * getline: split `rest` at its first ',' into the token `tmp` and the text
   * `after` it; the tokens read so far, `tmp`, and the tokens of `after` are
   * still the tokens of the input.
   */
  method GetLine(rest: string, ghost done: seq<string>, ghost tokens: seq<string>)
    returns (tmp: string, after: string)
    requires rest != [] && done + Tokens(rest) == tokens
    ensures |after| < |rest| && (done + [tmp]) + Tokens(after) == tokens
    ensures tmp == rest[..IndexOf(rest, ',')]
  {
    NextToken(rest);
    var i := IndexOf(rest, ',');
    tmp := rest[..i];
    after := if i == |rest| then [] else rest[i + 1..];
    assert (done + [tmp]) + Tokens(after) == done + ([tmp] + Tokens(after));
  }

  /**
   * The body of the getline loop: insert what the token `tmp` contributes,
   * or throw; `done` are the tokens read before.
   */
  method InsertToken(colors: seq<Color>, tmp: string, priorAlpha: u8, ghost done: seq<string>)
    returns (r: Result<seq<Color>>)
    requires Increasing(colors) && Collected(done, priorAlpha) == Ok(Elements(colors))
    ensures r.Ok? ==> Increasing(r.value) && Collected(done + [tmp], priorAlpha) == Ok(Elements(r.value))
    ensures r.InvalidArgument? ==> Collected(done + [tmp], priorAlpha) == InvalidArgument
  {
    assert (done + [tmp])[..|done|] == done;
    if tmp in COLOR_SETS_MAP {
      var result := InsertAll(colors, COLOR_SETS_MAP[tmp]);
      return Ok(result);
    }
    var c := StrToCol(tmp, priorAlpha);
    if c.InvalidArgument? {
      return InvalidArgument;
    }
    InsertSpec(colors, c.value);
    assert Elements([c.value]) == {c.value};
    return Ok(Insert(colors, c.value));
  }

  /** A list whose first tokens throw throws. */
  lemma PrefixFailure(done: seq<string>, ts: seq<string>, tokens: seq<string>, priorAlpha: u8)
    requires done + ts == tokens && Collected(done, priorAlpha) == InvalidArgument
    ensures Collected(tokens, priorAlpha) == InvalidArgument
  {
    CollectedIsUnion(done, priorAlpha);
    var t :| t in done && !TokenColors(t, priorAlpha).Ok?;
    assert t in tokens;
    TokenFailure(tokens, t, priorAlpha);
  }

  /**
   * One pass of the getline loop: read the token before the first ',' of
   * `rest` and insert what it contributes, or throw. `done` are the tokens
   * read before and `tokens` those of the whole input.
   */
  method ReadToken(colors: seq<Color>, rest: string, priorAlpha: u8,
                   ghost done: seq<string>, ghost tokens: seq<string>)
    returns (r: Result<seq<Color>>, after: string, ghost doneAfter: seq<string>)
    requires rest != [] && done + Tokens(rest) == tokens
    requires Increasing(colors) && Collected(done, priorAlpha) == Ok(Elements(colors))
    ensures |after| < |rest| && doneAfter + Tokens(after) == tokens
    ensures r.Ok? ==> Increasing(r.value) && Collected(doneAfter, priorAlpha) == Ok(Elements(r.value))
    ensures r.InvalidArgument? ==> Collected(tokens, priorAlpha) == InvalidArgument
  {
    var tmp;
    tmp, after := GetLine(rest, done, tokens);
    doneAfter := done + [tmp];
    r := InsertToken(colors, tmp, priorAlpha, done);
    if r.InvalidArgument? {
      PrefixFailure(doneAfter, Tokens(after), tokens, priorAlpha);
    }
  }

  /**
   * str_to_cols: read the comma-separated list `str`. `priorAlpha` is the
   * alpha a six-digit code leaves unassigned (see StrToCol).
   */
  method StrToCols(str: string, priorAlpha: u8) returns (r: Result<seq<Color>>)
    ensures r.Ok? <==> Collected(Tokens(str), priorAlpha).Ok?
    ensures r.Ok? ==> Increasing(r.value) && Elements(r.value) == Collected(Tokens(str), priorAlpha).value
  {
    var colors: seq<Color> := [];
    var rest := str;
    ghost var done: seq<string> := [];
    ghost var tokens := Tokens(str);
    assert Elements(colors) == {};
    while rest != []
      invariant done + Tokens(rest) == tokens
      invariant Collected(done, priorAlpha) == Ok(Elements(colors))
      invariant Increasing(colors)
      decreases |rest|
    {
      var next;
      next, rest, done := ReadToken(colors, rest, priorAlpha, done, tokens);
      if next.InvalidArgument? {
        return InvalidArgument;
      }
      colors := next.value;
    }
    NoTokens();
    assert done == tokens;
    return Ok(colors);
  }

  /** An empty string reads as no colours at all. */
  lemma EmptyInputNoColors(r: Result<seq<Color>>, priorAlpha: u8)
    requires r.Ok? <==> Collected(Tokens(""), priorAlpha).Ok?
    requires r.Ok? ==> Increasing(r.value) && Elements(r.value) == Collected(Tokens(""), priorAlpha).value
    ensures r == Ok([])
  {
    NoTokens();
    IncreasingUnique(r.value, []);
  }

  /** The list read is determined by the set of its colours: the one increasing sequence of them. */
  lemma ResultIsCanonical(str1: string, str2: string, r1: Result<seq<Color>>, r2: Result<seq<Color>>, priorAlpha: u8)
    requires Collected(Tokens(str1), priorAlpha).Ok? && r1.Ok? && Increasing(r1.value)
    requires Elements(r1.value) == Collected(Tokens(str1), priorAlpha).value
    requires Collected(Tokens(str2), priorAlpha).Ok? && r2.Ok? && Increasing(r2.value)
    requires Elements(r2.value) == Collected(Tokens(str2), priorAlpha).value
    requires forall t :: t in Tokens(str1) <==> t in Tokens(str2)
    ensures r1 == r2
  {
    OrderDoesNotMatter(Tokens(str1), Tokens(str2), priorAlpha);
    IncreasingUnique(r1.value, r2.value);
  }
}
