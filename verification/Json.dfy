// What the JSON reader of src/parser.c accepts, as functions of the text and a position in it.
module Json {
  import opened Seqs

  datatype Member = Member(key: string, value: Json)

  datatype Json =
    | JNull
    | JBool(b: bool)
    | JNumber(r: real)
    | JString(s: string)
    | JArray(items: seq<Json>)
    | JObject(members: seq<Member>)

  /** A value and the position after it, or a syntax error. */
  datatype Parsed<+T> = Ok(value: T, next: nat) | Bad

  predicate IsSpace(c: char) { c == ' ' || c == '\t' || c == '\r' || c == '\n' }

  /** The character at a position; past the end there is none. */
  predicate CharAt(s: string, at: nat, c: char) { at < |s| && s[at] == c }

  predicate WordAt(s: string, at: nat, w: string) { at + |w| <= |s| && s[at..at + |w|] == w }

  function Skip(s: string, at: nat): (r: nat)
    requires at <= |s|
    ensures at <= r <= |s|
    decreases |s| - at
  {
    if at == |s| || !IsSpace(s[at]) then at else Skip(s, at + 1)
  }

  // ---------- Numbers ----------

  predicate IsDigit(c: char) { '0' <= c <= '9' }

  function DigitValue(c: char): nat
    requires IsDigit(c)
  {
    c as int - '0' as int
  }

  /** Where the digits that start at a position end. */
  function DigitsEnd(s: string, at: nat): (r: nat)
    requires at <= |s|
    ensures at <= r <= |s| && forall i | at <= i < r :: IsDigit(s[i])
    decreases |s| - at
  {
    if at == |s| || !IsDigit(s[at]) then at else DigitsEnd(s, at + 1)
  }

  predicate AllDigits(s: string) { forall i | 0 <= i < |s| :: IsDigit(s[i]) }

  function NatOf(s: string): nat
    requires AllDigits(s)
  {
    if s == "" then 0 else 10 * NatOf(s[..|s| - 1]) + DigitValue(s[|s| - 1])
  }

  function Pow10(n: nat): (p: int)
    ensures p > 0
  {
    if n == 0 then 1 else 10 * Pow10(n - 1)
  }

  /** Positional notation: what stands before is worth as many times ten as there are digits behind it. */
  lemma {:induction false} NatOfJoins(a: string, b: string)
    requires AllDigits(a) && AllDigits(b)
    ensures AllDigits(a + b) && NatOf(a + b) == NatOf(a) * Pow10(|b|) + NatOf(b)
  {
    hide Pow10, NatOf;
    var n := |b| - 1;
    if b == "" {
      Pow10Next(0);
      assert a + b == a;
      NatOfNext(b);
    } else {
      NatOfJoins(a, b[..n]);
      Pow10Next(n);
      assert (a + b)[..|a| + n] == a + b[..n];
      NatOfNext(b);
      NatOfNext(a + b);
      TenTimes(NatOf(a), Pow10(n));
    }
  }

  lemma NatOfNext(s: string)
    requires AllDigits(s)
    ensures NatOf(s) == if s == "" then 0 else 10 * NatOf(s[..|s| - 1]) + DigitValue(s[|s| - 1])
  {
  }

  lemma TenTimes(n: nat, p: int)
    ensures n * (10 * p) == 10 * (n * p)
  {
  }

  lemma Pow10Next(n: nat)
    ensures Pow10(0) == 1 && Pow10(n + 1) == 10 * Pow10(n)
  {
  }

  lemma OneDigit(d: nat)
    requires d < 10
    ensures var s := ["0123456789"[d]]; AllDigits(s) && NatOf(s) == d
  {
  }

  /** The number written whole.frac. */
  function Decimal(whole: string, frac: string): real
    requires AllDigits(whole) && AllDigits(frac)
  {
    NatOf(whole) as real + NatOf(frac) as real / Pow10(|frac|) as real
  }

  /** The exponent at a position, if there is a complete one. */
  function Exponent(s: string, at: nat): (r: Parsed<int>)
    requires at <= |s|
    ensures r.Ok? ==> at <= r.next <= |s|
  {
    if CharAt(s, at, 'e') || CharAt(s, at, 'E') then
      var from := if CharAt(s, at + 1, '-') || CharAt(s, at + 1, '+') then at + 2 else at + 1;
      var end := DigitsEnd(s, from);
      if end == from then Ok(0, at)
      else
        var n: int := NatOf(s[from..end]);
        Ok(if CharAt(s, at + 1, '-') then -n else n, end)
    else Ok(0, at)
  }

  function Scaled(r: real, e: int): real {
    if e >= 0 then r * Pow10(e) as real else r / Pow10(-e) as real
  }

  /** The decimal numbers strtod reads: digits, a fraction and an exponent, with at least one digit. */
  function Number(s: string, at: nat): (r: Parsed<real>)
    requires at <= |s|
    ensures r.Ok? ==> at < r.next <= |s|
  {
    var negative := CharAt(s, at, '-');
    var a := if negative then at + 1 else at;
    var b := DigitsEnd(s, a);
    var c := if CharAt(s, b, '.') then b + 1 else b;
    var d := if CharAt(s, b, '.') then DigitsEnd(s, c) else c;
    if b == a && d == c then Bad
    else
      var m := Decimal(s[a..b], s[c..d]);
      var e := Exponent(s, d);
      if e.Bad? then Bad else Ok(Scaled(if negative then -m else m, e.value), e.next)
  }

  // ---------- Strings ----------

  /** How many characters the literal from a position on denotes, an escape counting as one, and
      where its closing quote, or the text, ends. */
  function Scan(s: string, at: nat): (r: (nat, nat))
    requires at <= |s|
    ensures at + r.0 <= r.1 <= |s|
    decreases |s| - at
  {
    if at == |s| || s[at] == '"' then (0, at)
    else if s[at] == '\\' then
      if at + 1 == |s| then (0, |s|) else var (n, end) := Scan(s, at + 2); (n + 1, end)
    else var (n, end) := Scan(s, at + 1); (n + 1, end)
  }

  function Escaped(c: char): char {
    if c == 'n' then '\n' else if c == 't' then '\t' else if c == 'r' then '\r' else c
  }

  function Unescape(raw: string): string {
    if raw == "" then ""
    else if raw[0] == '\\' && |raw| > 1 then [Escaped(raw[1])] + Unescape(raw[2..])
    else [raw[0]] + Unescape(raw[1..])
  }

  /** A string literal: as many raw characters are kept as the literal denotes. */
  function String(s: string, at: nat): (r: Parsed<string>)
    requires at <= |s|
    ensures r.Ok? ==> at < r.next <= |s|
  {
    var q := Skip(s, at);
    if !CharAt(s, q, '"') then Bad
    else
      var (n, end) := Scan(s, q + 1);
      Ok(Unescape(s[q + 1..q + 1 + n]), if end < |s| then end + 1 else end)
  }

  // ---------- Values ----------

  function Value(s: string, at: nat): (r: Parsed<Json>)
    requires at <= |s|
    ensures r.Ok? ==> at < r.next <= |s|
    decreases |s| - at, 0
  {
    var p := Skip(s, at);
    if CharAt(s, p, '"') then
      var r := String(s, p);
      if r.Ok? then Ok(JString(r.value), r.next) else Bad
    else if CharAt(s, p, '[') then
      var q := Skip(s, p + 1);
      if CharAt(s, q, ']') then Ok(JArray([]), q + 1)
      else
        var r := Items(s, q);
        if r.Ok? then Ok(JArray(r.value), r.next) else Bad
    else if CharAt(s, p, '{') then
      var q := Skip(s, p + 1);
      if CharAt(s, q, '}') then Ok(JObject([]), q + 1)
      else
        var r := Members(s, q);
        if r.Ok? then Ok(JObject(r.value), r.next) else Bad
    else if WordAt(s, p, "true") then Ok(JBool(true), p + 4)
    else if WordAt(s, p, "false") then Ok(JBool(false), p + 5)
    else if WordAt(s, p, "null") then Ok(JNull, p + 4)
    else if p < |s| && (s[p] == '-' || IsDigit(s[p])) then
      var r := Number(s, p);
      if r.Ok? then Ok(JNumber(r.value), r.next) else Bad
    else Bad
  }

  /** The rest of a non-empty array: a value, then the closing bracket or a comma and more. */
  function Items(s: string, at: nat): (r: Parsed<seq<Json>>)
    requires at <= |s|
    ensures r.Ok? ==> at < r.next <= |s|
    decreases |s| - at, 1
  {
    var v := Value(s, at);
    if v.Bad? then Bad
    else
      var p := Skip(s, v.next);
      if CharAt(s, p, ']') then Ok([v.value], p + 1)
      else if CharAt(s, p, ',') then
        var more := Items(s, p + 1);
        if more.Ok? then Ok([v.value] + more.value, more.next) else Bad
      else Bad
  }

  /** One key and its value. */
  function KeyValue(s: string, at: nat): (r: Parsed<Member>)
    requires at <= |s|
    ensures r.Ok? ==> at < r.next <= |s|
    decreases |s| - at, 1
  {
    var k := String(s, at);
    if k.Bad? then Bad
    else
      var p := Skip(s, k.next);
      if !CharAt(s, p, ':') then Bad
      else
        var v := Value(s, p + 1);
        if v.Ok? then Ok(Member(k.value, v.value), v.next) else Bad
  }

  function Members(s: string, at: nat): (r: Parsed<seq<Member>>)
    requires at <= |s|
    ensures r.Ok? ==> at < r.next <= |s|
    decreases |s| - at, 2
  {
    var m := KeyValue(s, at);
    if m.Bad? then Bad
    else
      var p := Skip(s, m.next);
      if CharAt(s, p, '}') then Ok([m.value], p + 1)
      else if CharAt(s, p, ',') then
        var more := Members(s, p + 1);
        if more.Ok? then Ok([m.value] + more.value, more.next) else Bad
      else Bad
  }

  // ---------- What well-formed pieces read back as ----------

  /** No quote and no backslash. */
  predicate Plain(s: string) { forall i | 0 <= i < |s| :: s[i] != '"' && s[i] != '\\' }

  function Quoted(s: string): string { "\"" + s + "\"" }

  lemma WordParts(s: string, at: nat, a: string, b: string)
    requires WordAt(s, at, a + b)
    ensures WordAt(s, at, a) && WordAt(s, at + |a|, b)
  {
    assert s[at..at + |a|] == s[at..at + |a + b|][..|a|];
    assert s[at + |a|..at + |a| + |b|] == s[at..at + |a + b|][|a|..];
  }

  lemma WordChar(s: string, at: nat, w: string, i: nat)
    requires WordAt(s, at, w) && i < |w|
    ensures CharAt(s, at + i, w[i])
  {
    assert s[at + i] == s[at..at + |w|][i];
  }

  lemma SkipNothing(s: string, at: nat)
    requires at < |s| && !IsSpace(s[at])
    ensures Skip(s, at) == at
  {
  }

  lemma {:induction false} ScanPlain(s: string, at: nat, w: string)
    requires WordAt(s, at, w) && Plain(w) && CharAt(s, at + |w|, '"')
    ensures Scan(s, at) == (|w|, at + |w|)
    decreases |w|
  {
    if w != "" {
      WordChar(s, at, w, 0);
      assert w == w[..1] + w[1..];
      WordParts(s, at, w[..1], w[1..]);
      ScanPlain(s, at + 1, w[1..]);
    }
  }

  lemma {:induction false} UnescapePlain(s: string)
    requires Plain(s)
    ensures Unescape(s) == s
  {
    if s != "" { UnescapePlain(s[1..]); }
  }

  /** A quoted plain string reads back as itself. */
  lemma StringRoundTrip(s: string, at: nat, w: string)
    requires Plain(w) && WordAt(s, at, Quoted(w))
    ensures String(s, at) == Ok(w, at + |w| + 2)
  {
    hide Scan, Unescape;
    WordChar(s, at, Quoted(w), 0);
    SkipNothing(s, at);
    assert Quoted(w) == "\"" + (w + "\"");
    WordParts(s, at, "\"", w + "\"");
    WordParts(s, at + 1, w, "\"");
    WordChar(s, at + 1 + |w|, "\"", 0);
    ScanPlain(s, at + 1, w);
    UnescapePlain(w);
  }

  /** The value of the first member with this key. */
  function Lookup(ms: seq<Member>, key: string): (r: Option<Json>)
    ensures r.None? ==> forall i | 0 <= i < |ms| :: ms[i].key != key
    ensures r.Some? ==> exists i | 0 <= i < |ms| ::
      ms[i] == Member(key, r.value) && forall j | 0 <= j < i :: ms[j].key != key
  {
    if ms == [] then None else if ms[0].key == key then Some(ms[0].value) else Lookup(ms[1..], key)
  }

  /** Digits up to something that is none. */
  lemma {:induction false} DigitsEndAt(s: string, at: nat, w: string)
    requires AllDigits(w) && WordAt(s, at, w) && (at + |w| < |s| ==> !IsDigit(s[at + |w|]))
    ensures DigitsEnd(s, at) == at + |w|
    decreases |w|
  {
    if w != "" {
      WordChar(s, at, w, 0);
      assert w == w[..1] + w[1..];
      WordParts(s, at, w[..1], w[1..]);
      DigitsEndAt(s, at + 1, w[1..]);
    }
  }

  // ---------- Escapes ----------

  /** What a raw string stands for, from the front: n, t and r after a backslash are control characters,
      any other character there is itself, and a backslash at the end stays. */
  lemma EscapesRead(c: char, rest: string)
    ensures c != '\\' ==> Unescape([c] + rest) == [c] + Unescape(rest)
    ensures var escaped := if c == 'n' then '\n' else if c == 't' then '\t' else if c == 'r' then '\r' else c;
      Unescape(['\\', c] + rest) == [escaped] + Unescape(rest)
    ensures Unescape("\\") == "\\" && Unescape("") == ""
  {
    assert ([c] + rest)[1..] == rest && (['\\', c] + rest)[2..] == rest;
    assert "\\"[1..] == "";
  }

  /** What a string literal denotes: every escape replaced, up to the closing quote. */
  function Denoted(s: string, at: nat): string
    requires at <= |s|
    decreases |s| - at
  {
    if at == |s| || s[at] == '"' then ""
    else if s[at] == '\\' then
      if at + 1 == |s| then "" else [Escaped(s[at + 1])] + Denoted(s, at + 2)
    else [s[at]] + Denoted(s, at + 1)
  }

  lemma {:induction false} DenotedLength(s: string, at: nat)
    requires at <= |s|
    ensures |Denoted(s, at)| == Scan(s, at).0
    decreases |s| - at
  {
    if at < |s| && s[at] != '"' {
      if s[at] != '\\' { DenotedLength(s, at + 1); }
      else if at + 1 < |s| { DenotedLength(s, at + 2); }
    }
  }

  /** A terminated literal without escapes holds no backslash. */
  lemma {:induction false} NoEscapes(s: string, at: nat)
    requires at <= |s|
    ensures var (n, end) := Scan(s, at);
      end < |s| && end == at + n ==> forall i | at <= i < end :: s[i] != '\\'
    decreases |s| - at
  {
    if at < |s| && s[at] != '"' {
      if s[at] != '\\' { NoEscapes(s, at + 1); }
    }
  }

  lemma {:induction false} UnescapeShrinks(raw: string)
    ensures |Unescape(raw)| <= |raw|
  {
    if raw != "" {
      if raw[0] == '\\' && |raw| > 1 { UnescapeShrinks(raw[2..]); } else { UnescapeShrinks(raw[1..]); }
    }
  }

  lemma SameTail(c: char, u: string, d: string)
    ensures [c] + u == [c] + d <==> u == d
  {
    assert ([c] + u)[1..] == u && ([c] + d)[1..] == d;
  }

  lemma PlainUnescape(raw: string)
    requires raw != "" && raw[0] != '\\'
    ensures Unescape(raw) == [raw[0]] + Unescape(raw[1..])
  {
  }

  lemma PlainDenoted(s: string, at: nat)
    requires at < |s| && s[at] != '"' && s[at] != '\\'
    ensures Denoted(s, at) == [s[at]] + Denoted(s, at + 1)
  {
  }

  /** A first character that is no escape does not matter. */
  lemma PlainHead(s: string, at: nat)
    requires at < |s| && s[at] != '"' && s[at] != '\\'
    ensures var n := Scan(s, at).0;
      && n > 0 && Scan(s, at + 1) == (n - 1, Scan(s, at).1)
      && (Unescape(s[at..at + n]) == Denoted(s, at) <==> Unescape(s[at + 1..at + n]) == Denoted(s, at + 1))
  {
    hide Unescape, Denoted;
    var n := Scan(s, at).0;
    var raw := s[at..at + n];
    assert raw[1..] == s[at + 1..at + n];
    PlainUnescape(raw);
    PlainDenoted(s, at);
    SameTail(s[at], Unescape(raw[1..]), Denoted(s, at + 1));
  }

  /** A first character that is an escape must be the only one, and of a backslash. */
  lemma EscapedHead(s: string, at: nat)
    requires at < |s| && s[at] == '\\' && Scan(s, at).1 < |s|
    ensures var (n, end) := Scan(s, at);
      Unescape(s[at..at + n]) == Denoted(s, at) <==> end == at + 2 && s[at + 1] == '\\'
    ensures var (n, end) := Scan(s, at);
      n > 0 && (end == at + 2 ==> n == 1) && end > at + n && (end == at + n + 1 && n > 1 ==> s[at + n - 1] != '\\' || s[at + n] != '\\')
  {
    var (n, end) := Scan(s, at);
    var raw := s[at..at + n];
    DenotedLength(s, at);
    if n == 1 {
      DenotedLength(s, at + 2);
      assert raw[1..] == "" && Unescape(raw) == ['\\'] + Unescape(raw[1..]) == ['\\'];
      assert Denoted(s, at) == [Escaped(s[at + 1])] + Denoted(s, at + 2) == [Escaped(s[at + 1])];
      assert ['\\'][0] == '\\' && [Escaped(s[at + 1])][0] == Escaped(s[at + 1]);
    } else {
      UnescapeShrinks(raw[2..]);
      NoEscapes(s, at + 2);
    }
  }

  lemma ScanEnd(s: string, at: nat)
    requires at <= |s| && Scan(s, at).1 < |s|
    ensures at < |s|
  {
  }

  lemma EmptyLiteral(s: string, at: nat)
    requires CharAt(s, at, '"')
    ensures Scan(s, at) == (0, at) && Unescape(s[at..at]) == Denoted(s, at)
  {
  }

  /** The reader gets a terminated literal right exactly when it has no escape, or a single one,
      of a backslash, at its end; otherwise its value is cut short or wrong. */
  lemma {:induction false} StringRightIff(s: string, at: nat)
    requires at < |s| && Scan(s, at).1 < |s|
    ensures var (n, end) := Scan(s, at);
      Unescape(s[at..at + n]) == Denoted(s, at) <==>
        end == at + n || (end == at + n + 1 && n > 0 && s[at + n - 1] == '\\' && s[at + n] == '\\')
    decreases |s| - at
  {
    hide Scan, Unescape, Denoted;
    if s[at] == '"' {
      EmptyLiteral(s, at);
    } else if s[at] != '\\' {
      PlainHead(s, at);
      ScanEnd(s, at + 1);
      StringRightIff(s, at + 1);
    } else {
      EscapedHead(s, at);
    }
  }
}
