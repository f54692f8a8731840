/** `parseCoordinates`: reads "row col" typed by the user and checks it
    against the grid size. `String.trim`, `String.split("\\s+")` and
    `Integer.parseInt` are written out as functions on strings. */
module Coordinates {
  import opened Wrappers
  import opened Ints

  /** The three `IllegalArgumentException`s the parser throws. */
  datatype ParseError =
    | WrongTokenCount            // "Expected two integers for row and col."
    | NotAnInteger               // "Input must be integers."
    | OutOfBounds(row: int, col: int)

  /** The characters `String.trim` strips: code points up to U+0020. */
  predicate IsTrimmed(c: char) {
    c as int <= 32
  }

  /** The regular-expression class `\s`: space, tab, line feed, vertical
      tab, form feed, carriage return. */
  predicate IsWhitespace(c: char) {
    c == ' ' || 9 <= c as int <= 13
  }

  predicate IsDigit(c: char) {
    '0' as int <= c as int <= '9' as int
  }

  predicate AllDigits(s: string) {
    forall k :: 0 <= k < |s| ==> IsDigit(s[k])
  }

  function TrimStart(s: string): (r: string)
    ensures |r| <= |s| && r == s[|s| - |r|..]
    ensures forall k :: 0 <= k < |s| - |r| ==> IsTrimmed(s[k])
    ensures r == [] || !IsTrimmed(r[0])
  {
    if s != [] && IsTrimmed(s[0]) then
      var r := TrimStart(s[1..]);
      assert s[1..][|s| - 1 - |r|..] == s[|s| - |r|..];
      assert forall k :: 1 <= k < |s| - |r| ==> s[k] == s[1..][k - 1];
      r
    else s
  }

  function TrimEnd(s: string): (r: string)
    ensures |r| <= |s| && r == s[..|r|]
    ensures forall k :: |r| <= k < |s| ==> IsTrimmed(s[k])
    ensures r == [] || !IsTrimmed(r[|r| - 1])
  {
    if s != [] && IsTrimmed(s[|s| - 1]) then TrimEnd(s[..|s| - 1]) else s
  }

  /** `String.trim`. */
  function Trim(s: string): (r: string)
    ensures r == [] || (!IsTrimmed(r[0]) && !IsTrimmed(r[|r| - 1]))
    ensures |s| - |TrimStart(s)| + |r| <= |s|
    ensures r == s[|s| - |TrimStart(s)|..][..|r|]
    ensures forall k :: 0 <= k < |s| - |TrimStart(s)| ==> IsTrimmed(s[k])
    ensures forall k :: |s| - |TrimStart(s)| + |r| <= k < |s| ==> IsTrimmed(s[k])
  {
    var t := TrimStart(s);
    var r := TrimEnd(t);
    TrimShape(s, t, r);
    r
  }

  /** A start trim `t` of `s` followed by an end trim `r` of `t`, read back
      in `s`. */
  lemma TrimShape(s: string, t: string, r: string)
    requires |t| <= |s| && t == s[|s| - |t|..]
    requires forall k :: 0 <= k < |s| - |t| ==> IsTrimmed(s[k])
    requires t == [] || !IsTrimmed(t[0])
    requires |r| <= |t| && r == t[..|r|] && forall k :: |r| <= k < |t| ==> IsTrimmed(t[k])
    requires r == [] || !IsTrimmed(r[|r| - 1])
    ensures r == [] || (!IsTrimmed(r[0]) && !IsTrimmed(r[|r| - 1]))
    ensures |s| - |t| + |r| <= |s|
    ensures r == s[|s| - |t|..][..|r|]
    ensures forall k :: 0 <= k < |s| - |t| ==> IsTrimmed(s[k])
    ensures forall k :: |s| - |t| + |r| <= k < |s| ==> IsTrimmed(s[k])
  {
    var i := |s| - |t|;
    if r != [] {
      assert r[0] == t[0];
    }
    forall k | i + |r| <= k < |s| ensures IsTrimmed(s[k]) {
      assert s[k] == t[k - i];
    }
  }

  /** The length of the run of non-whitespace characters that starts `s`. */
  function TokenLength(s: string): (n: nat)
    ensures n <= |s|
    ensures forall k :: 0 <= k < n ==> !IsWhitespace(s[k])
    ensures n == |s| || IsWhitespace(s[n])
  {
    if s == [] || IsWhitespace(s[0]) then 0 else 1 + TokenLength(s[1..])
  }

  /** The maximal runs of non-whitespace characters of `s`, in order. */
  function Words(s: string): (ws: seq<string>)
    ensures forall i :: 0 <= i < |ws| ==> ws[i] != [] && forall k :: 0 <= k < |ws[i]| ==> !IsWhitespace(ws[i][k])
    decreases |s|
  {
    if s == [] then []
    else if IsWhitespace(s[0]) then Words(s[1..])
    else
      var n := TokenLength(s);
      [s[..n]] + Words(s[n..])
  }

  /** The pieces glued back together. */
  function Concat(ws: seq<string>): string {
    if ws == [] then [] else ws[0] + Concat(ws[1..])
  }

  /** `s` with every whitespace character removed. */
  function NonBlank(s: string): string {
    if s == [] then []
    else if IsWhitespace(s[0]) then NonBlank(s[1..])
    else [s[0]] + NonBlank(s[1..])
  }

  /** The number of positions of `s` where a run of non-whitespace
      characters begins, scanning left to right; `afterBlank` says whether
      the character before `s` (if any) was whitespace or absent. */
  function RunStarts(s: string, afterBlank: bool): nat {
    if s == [] then 0
    else (if afterBlank && !IsWhitespace(s[0]) then 1 else 0) + RunStarts(s[1..], IsWhitespace(s[0]))
  }

  /** A word of non-whitespace characters in front of `rest` keeps all its
      characters and starts one run, if it follows whitespace or the start. */
  lemma {:induction false} WordPrefix(w: string, rest: string, afterBlank: bool)
    requires w != [] && forall k :: 0 <= k < |w| ==> !IsWhitespace(w[k])
    ensures NonBlank(w + rest) == w + NonBlank(rest)
    ensures RunStarts(w + rest, afterBlank) == (if afterBlank then 1 else 0) + RunStarts(rest, false)
  {
    assert (w + rest)[0] == w[0] && (w + rest)[1..] == w[1..] + rest;
    if |w| > 1 {
      WordPrefix(w[1..], rest, false);
    } else {
      assert w[1..] + rest == rest;
    }
  }

  /** The split recovers the text: its pieces, glued together, are the
      input without its whitespace, and there is one piece per run of
      non-whitespace characters. */
  lemma {:induction false} WordsAreRuns(s: string)
    ensures Concat(Words(s)) == NonBlank(s)
    ensures |Words(s)| == RunStarts(s, true)
    decreases |s|
  {
    if s == [] {
    } else if IsWhitespace(s[0]) {
      WordsAreRuns(s[1..]);
    } else {
      var n := TokenLength(s);
      var w, rest := s[..n], s[n..];
      assert s == w + rest;
      assert Words(s) == [w] + Words(rest);
      assert ([w] + Words(rest))[1..] == Words(rest);
      WordPrefix(w, rest, true);
      WordsAreRuns(rest);
      if rest != [] {
        assert IsWhitespace(rest[0]);
        assert RunStarts(rest, false) == RunStarts(rest, true);
      }
    }
  }

  /** `split("\\s+")` applied to a string that `trim` has already
      stripped: `[""]` for the empty string, the words otherwise (such a
      string neither starts nor ends with whitespace, so no empty piece
      appears at either end). */
  function SplitTrimmed(t: string): (parts: seq<string>)
    ensures t == [] ==> parts == [""]
    ensures t != [] ==> Concat(parts) == NonBlank(t) && |parts| == RunStarts(t, true)
    ensures t != [] ==> forall i :: 0 <= i < |parts| ==>
              parts[i] != [] && forall k :: 0 <= k < |parts[i]| ==> !IsWhitespace(parts[i][k])
  {
    if t == [] then [""] else WordsAreRuns(t); Words(t)
  }

  /** The value of a string of decimal digits. */
  function DigitsValue(s: string): nat
    requires AllDigits(s)
  {
    if s == [] then 0
    else
      assert IsDigit(s[|s| - 1]);
      DigitsValue(s[..|s| - 1]) * 10 + (s[|s| - 1] as int - '0' as int)
  }

  /** `Integer.parseInt`: an optional `+` or `-`, then one or more decimal
      digits, denoting a value that fits in an `int`. */
  function ParseInt(s: string): (r: Option<int>)
    ensures r.Some? ==> INT_MIN <= r.value <= INT_MAX
    ensures r.Some? ==> s != [] && (if s[0] == '-' then r.value <= 0 else r.value >= 0)
  {
    if s == [] then None
    else
      var digits := if s[0] == '-' || s[0] == '+' then s[1..] else s;
      if digits == [] || !AllDigits(digits) then None
      else
        var v: int := if s[0] == '-' then -(DigitsValue(digits) as int) else DigitsValue(digits);
        if INT_MIN <= v <= INT_MAX then Some(v) else None
  }

  /** `parseCoordinates`: exactly two tokens, both integers, both inside
      `[0, maxRows) × [0, maxCols)`; the first failing check decides the
      error. */
  function ParseCoordinates(input: string, maxRows: int, maxCols: int): (r: Result<(int, int), ParseError>)
    ensures r.Ok? ==> 0 <= r.value.0 < maxRows && 0 <= r.value.1 < maxCols
    ensures r.Err? && r.error == WrongTokenCount <==> |SplitTrimmed(Trim(input))| != 2
    ensures r.Err? && r.error == NotAnInteger <==>
              |SplitTrimmed(Trim(input))| == 2
              && (ParseInt(SplitTrimmed(Trim(input))[0]).None? || ParseInt(SplitTrimmed(Trim(input))[1]).None?)
    ensures r.Ok? ==> Some(r.value.0) == ParseInt(SplitTrimmed(Trim(input))[0])
                      && Some(r.value.1) == ParseInt(SplitTrimmed(Trim(input))[1])
    ensures r.Err? && r.error.OutOfBounds? ==>
              && |SplitTrimmed(Trim(input))| == 2
              && Some(r.error.row) == ParseInt(SplitTrimmed(Trim(input))[0])
              && Some(r.error.col) == ParseInt(SplitTrimmed(Trim(input))[1])
              && !(0 <= r.error.row < maxRows && 0 <= r.error.col < maxCols)
  {
    var parts := SplitTrimmed(Trim(input));
    if |parts| != 2 then Err(WrongTokenCount)
    else
      match (ParseInt(parts[0]), ParseInt(parts[1]))
      case (Some(row), Some(col)) =>
        if row < 0 || col < 0 || row >= maxRows || col >= maxCols then Err(OutOfBounds(row, col))
        else Ok((row, col))
      case _ => Err(NotAnInteger)
  }

  // ---------------------------------------------------------------------
  // Round trip: coordinates written the way a user types them parse back.

  function DigitChar(d: nat): (c: char)
    requires d < 10
    ensures IsDigit(c)
  {
    ('0' as int + d) as char
  }

  /** The decimal digits of `n`, most significant first, no leading zero. */
  function Decimal(n: nat): (s: string)
    ensures s != [] && AllDigits(s)
  {
    if n < 10 then [DigitChar(n)] else Decimal(n / 10) + [DigitChar(n % 10)]
  }

  /** `Integer.toString`. */
  function Show(x: int): string {
    if x < 0 then "-" + Decimal(-x) else Decimal(x)
  }

  lemma {:induction false} DecimalValue(n: nat)
    ensures DigitsValue(Decimal(n)) == n
  {
    if n >= 10 {
      var s := Decimal(n);
      assert s[..|s| - 1] == Decimal(n / 10);
      DecimalValue(n / 10);
    }
  }

  /** `Integer.parseInt` reads back what `Integer.toString` writes. */
  lemma ParseShow(x: int)
    requires INT_MIN <= x <= INT_MAX
    ensures ParseInt(Show(x)) == Some(x)
  {
    if x < 0 {
      ParseNegative(-x);
    } else {
      ParseNatural(x);
    }
  }

  lemma ParseNatural(n: nat)
    requires n <= INT_MAX
    ensures ParseInt(Decimal(n)) == Some(n)
  {
    var s := Decimal(n);
    assert IsDigit(s[0]);
    DecimalValue(n);
  }

  lemma ParseNegative(n: nat)
    requires 0 < n <= -INT_MIN
    ensures ParseInt("-" + Decimal(n)) == Some(-(n as int))
  {
    var s := "-" + Decimal(n);
    assert s[0] == '-' && s[1..] == Decimal(n);
    DecimalValue(n);
  }

  // ---------------------------------------------------------------------
  // Exactly which tokens `Integer.parseInt` accepts: the shortest decimal
  // spelling of the magnitude, preceded by an optional sign and any number
  // of zeros.

  predicate IsSign(c: char) {
    c == '+' || c == '-'
  }

  /** What may stand in front of the shortest spelling of a magnitude: an
      optional sign, then zeros. */
  predicate Lead(p: string) {
    forall k :: 0 <= k < |p| ==> p[k] == '0' || (k == 0 && IsSign(p[k]))
  }

  /** The value of the token `p + Decimal(n)`. */
  function Signed(p: string, n: nat): (v: int)
    ensures v == n as int || v == -(n as int)
  {
    if p != [] && p[0] == '-' then -(n as int) else n
  }

  lemma {:induction false} ZerosValue(z: string)
    requires forall k :: 0 <= k < |z| ==> z[k] == '0'
    ensures AllDigits(z) && DigitsValue(z) == 0
  {
    if z != [] {
      ZerosValue(z[..|z| - 1]);
    }
  }

  /** Zeros in front of a digit string do not change its value. */
  lemma {:induction false} PaddedValue(z: string, t: string)
    requires forall k :: 0 <= k < |z| ==> z[k] == '0'
    requires AllDigits(t)
    ensures AllDigits(z + t) && DigitsValue(z + t) == DigitsValue(t)
    decreases |t|
  {
    if t == [] {
      assert z + t == z;
      ZerosValue(z);
    } else {
      var u := z + t;
      assert u[..|u| - 1] == z + t[..|t| - 1];
      PaddedValue(z, t[..|t| - 1]);
    }
  }

  /** `n` zeros. */
  function Zeros(n: nat): (z: string)
    ensures |z| == n && forall k :: 0 <= k < n ==> z[k] == '0'
  {
    if n == 0 then [] else Zeros(n - 1) + "0"
  }

  /** Every digit string is the shortest spelling of its value with zeros in
      front. */
  lemma {:induction false} DigitsSpelling(t: string)
    requires t != [] && AllDigits(t)
    ensures |Decimal(DigitsValue(t))| <= |t|
    ensures t == Zeros(|t| - |Decimal(DigitsValue(t))|) + Decimal(DigitsValue(t))
    decreases |t|
  {
    var u, c := t[..|t| - 1], t[|t| - 1];
    assert t == u + [c];
    if u == [] {
      FirstDigit(t);
      assert t == Zeros(0) + [c];
    } else {
      DigitsSpelling(u);
      var du := Decimal(DigitsValue(u));
      var j := |u| - |du|;
      assert u == Zeros(j) + du;
      if DigitsValue(u) == 0 {
        FirstDigit(t);
        assert u == Zeros(j) + "0" == Zeros(|u|);
        assert t == Zeros(|u|) + [c];
      } else {
        NextDigit(t);
        assert t == (Zeros(j) + du) + [c] == Zeros(j) + (du + [c]);
      }
    }
  }

  /** A digit string whose digits before the last are worth 0 is spelled by
      its last digit. */
  lemma FirstDigit(t: string)
    requires t != [] && AllDigits(t) && AllDigits(t[..|t| - 1]) && DigitsValue(t[..|t| - 1]) == 0
    ensures Decimal(DigitsValue(t)) == [t[|t| - 1]]
  {
    var c := t[|t| - 1];
    assert IsDigit(c);
    var digit := c as int - '0' as int;
    assert DigitsValue(t) == digit;
    assert DigitChar(digit) == c;
  }

  /** Otherwise the shortest spelling of the prefix's value gains the last
      digit. */
  lemma NextDigit(t: string)
    requires t != [] && AllDigits(t) && AllDigits(t[..|t| - 1]) && DigitsValue(t[..|t| - 1]) > 0
    ensures Decimal(DigitsValue(t)) == Decimal(DigitsValue(t[..|t| - 1])) + [t[|t| - 1]]
  {
    var c := t[|t| - 1];
    assert IsDigit(c);
    var digit := c as int - '0' as int;
    var m := DigitsValue(t[..|t| - 1]);
    assert DigitsValue(t) == m * 10 + digit;
    AppendDigit(m, digit);
    assert DigitChar(digit) == c;
  }

  lemma AppendDigit(m: nat, digit: nat)
    requires 0 < m && digit < 10
    ensures Decimal(m * 10 + digit) == Decimal(m) + [DigitChar(digit)]
  {
    assert (m * 10 + digit) / 10 == m && (m * 10 + digit) % 10 == digit;
  }

  /** Every token `Integer.parseInt` accepts is an optional sign and zeros
      followed by the shortest spelling of the value's magnitude, and the
      sign decides the value. */
  lemma AcceptedSpelling(s: string)
    ensures ParseInt(s).Some? ==>
              var v := ParseInt(s).value;
              var m: nat := if v < 0 then -v else v;
              var d := Decimal(m);
              && |d| <= |s| && s[|s| - |d|..] == d
              && Lead(s[..|s| - |d|]) && Signed(s[..|s| - |d|], m) == v
  {
    if ParseInt(s).Some? {
      var k := if IsSign(s[0]) then 1 else 0;
      var v := ParseInt(s).value;
      assert s[k..] != [] && AllDigits(s[k..]);
      assert v == Signed(s[..k], DigitsValue(s[k..]));
      SignThenDigits(s, k, DigitsValue(s[k..]));
    }
  }

  /** A sign of length `k` followed by digits worth `n` is a lead followed by
      the shortest spelling of `n`. */
  lemma SignThenDigits(s: string, k: nat, n: nat)
    requires k <= 1 && k < |s| && (k == 1 <==> IsSign(s[0]))
    requires AllDigits(s[k..]) && DigitsValue(s[k..]) == n
    ensures var d := Decimal(n);
            && |d| <= |s| && s[|s| - |d|..] == d
            && Lead(s[..|s| - |d|]) && Signed(s[..|s| - |d|], n) == Signed(s[..k], n)
  {
    var digits := s[k..];
    DigitsSpelling(digits);
    var d := Decimal(n);
    var p := s[..k] + Zeros(|digits| - |d|);
    assert s == s[..k] + digits == p + d;
    assert s[|s| - |d|..] == d && s[..|s| - |d|] == p;
    assert k == 1 ==> p[0] == s[0];
    assert k == 0 ==> s[0] == digits[0] && IsDigit(s[0]);
  }

  /** Conversely, every such token is accepted whenever its value fits in an
      `int`. */
  lemma SpellingAccepted(p: string, n: nat)
    requires Lead(p)
    requires INT_MIN <= Signed(p, n) <= INT_MAX
    ensures ParseInt(p + Decimal(n)) == Some(Signed(p, n))
  {
    var s := p + Decimal(n);
    var d := Decimal(n);
    DecimalValue(n);
    if p != [] && IsSign(p[0]) {
      assert s[0] == p[0] && s[1..] == p[1..] + d;
      PaddedValue(p[1..], d);
    } else {
      assert s[0] == (if p != [] then p[0] else d[0]);
      PaddedValue(p, d);
    }
  }

  /** Letters, a lone sign and an inner blank are rejected. */
  lemma Rejected()
    ensures ParseInt("abc") == None && ParseInt("-") == None && ParseInt("+") == None
    ensures ParseInt("1 2") == None && ParseInt("-+1") == None
  {
    assert !IsDigit('a') && !IsDigit(' ') && !IsDigit('+');
    assert "1 2"[1] == ' ' && "-+1"[1..][0] == '+';
  }

  lemma {:induction false} TrimStartPadding(pad: string, s: string)
    requires forall k :: 0 <= k < |pad| ==> IsTrimmed(pad[k])
    requires s != [] && !IsTrimmed(s[0])
    ensures TrimStart(pad + s) == s
  {
    if pad != [] {
      assert (pad + s)[0] == pad[0] && IsTrimmed(pad[0]);
      assert (pad + s)[1..] == pad[1..] + s;
      TrimStartPadding(pad[1..], s);
    } else {
      assert pad + s == s;
    }
  }

  lemma {:induction false} TrimEndPadding(s: string, pad: string)
    requires forall k :: 0 <= k < |pad| ==> IsTrimmed(pad[k])
    requires s != [] && !IsTrimmed(s[|s| - 1])
    ensures TrimEnd(s + pad) == s
  {
    if pad != [] {
      assert (s + pad)[..|s + pad| - 1] == s + pad[..|pad| - 1];
      TrimEndPadding(s, pad[..|pad| - 1]);
    }
  }

  lemma {:induction false} TokenLengthOfWord(w: string, rest: string)
    requires forall k :: 0 <= k < |w| ==> !IsWhitespace(w[k])
    requires rest == [] || IsWhitespace(rest[0])
    ensures TokenLength(w + rest) == |w|
  {
    if w != [] {
      assert (w + rest)[1..] == w[1..] + rest;
      TokenLengthOfWord(w[1..], rest);
    }
  }

  lemma {:induction false} WordsSkipsWhitespace(sep: string, s: string)
    requires forall k :: 0 <= k < |sep| ==> IsWhitespace(sep[k])
    ensures Words(sep + s) == Words(s)
  {
    if sep != [] {
      assert (sep + s)[0] == sep[0] && IsWhitespace(sep[0]);
      assert Words(sep + s) == Words((sep + s)[1..]);
      assert (sep + s)[1..] == sep[1..] + s;
      WordsSkipsWhitespace(sep[1..], s);
    } else {
      assert sep + s == s;
    }
  }

  /** Two words separated by whitespace split into exactly those words. */
  lemma WordsOfPair(a: string, sep: string, b: string)
    requires a != [] && forall k :: 0 <= k < |a| ==> !IsWhitespace(a[k])
    requires b != [] && forall k :: 0 <= k < |b| ==> !IsWhitespace(b[k])
    requires sep != [] && forall k :: 0 <= k < |sep| ==> IsWhitespace(sep[k])
    ensures Words(a + sep + b) == [a, b]
  {
    var s := a + sep + b;
    TokenLengthOfWord(a, sep + b);
    assert s == a + (sep + b);
    assert s[..|a|] == a && s[|a|..] == sep + b;
    WordsSkipsWhitespace(sep, b);
    TokenLengthOfWord(b, []);
    assert b + [] == b;
    assert b[|b|..] == [];
  }

  lemma ShowIsWord(x: int)
    ensures Show(x) != []
    ensures forall k :: 0 <= k < |Show(x)| ==> !IsWhitespace(Show(x)[k]) && !IsTrimmed(Show(x)[k])
  {
  }

  /** Blanks around a string that neither starts nor ends with one are
      what `trim` removes. */
  lemma TrimPadding(lead: string, body: string, trail: string)
    requires forall k :: 0 <= k < |lead| ==> IsTrimmed(lead[k])
    requires forall k :: 0 <= k < |trail| ==> IsTrimmed(trail[k])
    requires body != [] && !IsTrimmed(body[0]) && !IsTrimmed(body[|body| - 1])
    ensures Trim(lead + body + trail) == body
  {
    assert lead + body + trail == lead + (body + trail);
    TrimStartPadding(lead, body + trail);
    TrimEndPadding(body, trail);
  }

  /** Two `int`s written with leading and trailing blanks and whitespace
      between them split into exactly their two renderings. */
  lemma SplitTyped(lead: string, row: int, sep: string, col: int, trail: string)
    requires forall k :: 0 <= k < |lead| ==> IsTrimmed(lead[k])
    requires forall k :: 0 <= k < |trail| ==> IsTrimmed(trail[k])
    requires sep != [] && forall k :: 0 <= k < |sep| ==> IsWhitespace(sep[k])
    ensures SplitTrimmed(Trim(lead + Show(row) + sep + Show(col) + trail)) == [Show(row), Show(col)]
  {
    var a, b := Show(row), Show(col);
    ShowIsWord(row);
    ShowIsWord(col);
    var body := a + sep + b;
    assert lead + a + sep + b + trail == lead + body + trail;
    assert body[0] == a[0] && body[|body| - 1] == b[|b| - 1];
    TrimPadding(lead, body, trail);
    WordsOfPair(a, sep, b);
  }

  /** The token-count check of `parseCoordinates` passes exactly when the
      trimmed input holds two runs of non-whitespace characters. */
  lemma TwoTokens(input: string)
    ensures |SplitTrimmed(Trim(input))| == 2 <==> RunStarts(Trim(input), true) == 2
  {
    if Trim(input) != [] {
      WordsAreRuns(Trim(input));
    }
  }

  /** A sign and leading zeros are accepted, as `Integer.parseInt` does. */
  lemma SignedInput()
    ensures ParseCoordinates(" +3 07", 15, 15) == Ok((3, 7))
  {
    SignedTokens();
    SignedNumbers();
  }

  lemma SignedTokens()
    ensures SplitTrimmed(Trim(" +3 07")) == ["+3", "07"]
  {
    var body := "+3 07";
    TrimStartPadding(" ", body);
    TrimEndPadding(body, "");
    assert " " + body == " +3 07" && body + "" == body;
    WordsOfPair("+3", " ", "07");
    assert "+3" + " " + "07" == body;
  }

  lemma SignedNumbers()
    ensures ParseInt("+3") == Some(3) && ParseInt("07") == Some(7)
  {
    assert "+3"[1..] == "3" && AllDigits("3") && AllDigits("07");
    assert "07"[..1] == "0" && "0"[..0] == "" && "3"[..0] == "";
  }

  /** Any two `int`s typed with leading and trailing blanks and any
      whitespace between them are read back exactly: accepted when inside
      the grid, reported as out of bounds otherwise. */
  lemma ParseTypedCoordinates(lead: string, row: int, sep: string, col: int, trail: string, maxRows: int, maxCols: int)
    requires INT_MIN <= row <= INT_MAX && INT_MIN <= col <= INT_MAX
    requires forall k :: 0 <= k < |lead| ==> IsTrimmed(lead[k])
    requires forall k :: 0 <= k < |trail| ==> IsTrimmed(trail[k])
    requires sep != [] && forall k :: 0 <= k < |sep| ==> IsWhitespace(sep[k])
    ensures ParseCoordinates(lead + Show(row) + sep + Show(col) + trail, maxRows, maxCols)
            == if 0 <= row < maxRows && 0 <= col < maxCols then Ok((row, col)) else Err(OutOfBounds(row, col))
  {
    SplitTyped(lead, row, sep, col, trail);
    ParseShow(row);
    ParseShow(col);
  }
}
