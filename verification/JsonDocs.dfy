// JSON documents laid out as text: which texts the reader of src/parser.c accepts, and as which values.
module JsonDocs {
  import opened Seqs
  import opened Json

  // ---------- Documents and their tokens ----------

  /** The exponent of a number: e or E, a sign or none, and digits. */
  datatype Power = Power(mark: char, sign: string, digits: string)

  /** A number as it is written. */
  datatype Num = Num(negative: bool, whole: string, frac: Option<string>, power: Option<Power>)

  predicate GoodPower(p: Power) {
    (p.mark == 'e' || p.mark == 'E') && (p.sign == "" || p.sign == "+" || p.sign == "-") && p.digits != "" && AllDigits(p.digits)
  }

  /** Digits, and a fraction and an exponent if there are any; only a negative number may start with the point. */
  predicate GoodNum(n: Num) {
    && AllDigits(n.whole) && (n.whole != "" || (n.negative && n.frac.Some? && n.frac.value != ""))
    && (n.frac.Some? ==> AllDigits(n.frac.value))
    && (n.power.Some? ==> GoodPower(n.power.value))
  }

  function FracText(f: Option<string>): string { if f.Some? then "." + f.value else "" }

  function PowerText(p: Option<Power>): string { if p.Some? then [p.value.mark] + (p.value.sign + p.value.digits) else "" }

  function NumText(n: Num): string {
    (if n.negative then "-" else "") + (n.whole + (FracText(n.frac) + PowerText(n.power)))
  }

  function Mantissa(n: Num): real
    requires GoodNum(n)
  {
    NatOf(n.whole) as real + if n.frac.Some? then NatOf(n.frac.value) as real / Pow10(|n.frac.value|) as real else 0.0
  }

  /** Whole part and fraction, times or divided by a power of ten. */
  function NumValue(n: Num): real
    requires GoodNum(n)
  {
    var m := if n.negative then -Mantissa(n) else Mantissa(n);
    if n.power.None? then m
    else if n.power.value.sign == "-" then m / Pow10(NatOf(n.power.value.digits)) as real
    else m * Pow10(NatOf(n.power.value.digits)) as real
  }

  datatype Entry = Entry(key: string, token: string, doc: Doc)

  /** A document; a string comes with the literal it is written as. */
  datatype Doc =
    | DNull
    | DBool(b: bool)
    | DNum(n: Num)
    | DStr(s: string, token: string)
    | DArr(items: seq<Doc>)
    | DObj(members: seq<Entry>)

  /** token is a literal with its closing quote, and reads as s. */
  predicate Literal(token: string, s: string) {
    && |token| >= 2 && token[0] == '"'
    && var (n, end) := Scan(token, 1); end == |token| - 1 && s == Unescape(token[1..1 + n])
  }

  predicate Good(d: Doc) {
    match d
    case DNum(n) => GoodNum(n)
    case DStr(s, token) => Literal(token, s)
    case DArr(items) => forall i | 0 <= i < |items| :: Good(items[i])
    case DObj(members) => forall i | 0 <= i < |members| :: Literal(members[i].token, members[i].key) && Good(members[i].doc)
    case _ => true
  }

  function Tokens(d: Doc): seq<string>
    decreases d, 1
  {
    match d
    case DNull => ["null"]
    case DBool(b) => [if b then "true" else "false"]
    case DNum(n) => [NumText(n)]
    case DStr(_, token) => [token]
    case DArr(items) => ["["] + ItemTokens(items) + ["]"]
    case DObj(members) => ["{"] + MemberTokens(members) + ["}"]
  }

  function ItemTokens(ds: seq<Doc>): seq<string>
    decreases ds, 0
  {
    if ds == [] then []
    else if |ds| == 1 then Tokens(ds[0])
    else Tokens(ds[0]) + [","] + ItemTokens(ds[1..])
  }

  function MemberTokens(ms: seq<Entry>): seq<string>
    decreases ms, 0
  {
    if ms == [] then []
    else
      var first := [ms[0].token, ":"] + Tokens(ms[0].doc);
      if |ms| == 1 then first else first + [","] + MemberTokens(ms[1..])
  }

  function JsonOf(d: Doc): Json
    requires Good(d)
    decreases d, 1
  {
    match d
    case DNull => JNull
    case DBool(b) => JBool(b)
    case DNum(n) => JNumber(NumValue(n))
    case DStr(s, _) => JString(s)
    case DArr(items) => JArray(JsonsOf(items))
    case DObj(members) => JObject(MembersOf(members))
  }

  function JsonsOf(ds: seq<Doc>): (r: seq<Json>)
    requires forall i | 0 <= i < |ds| :: Good(ds[i])
    ensures |r| == |ds| && forall i | 0 <= i < |ds| :: r[i] == JsonOf(ds[i])
    decreases ds, 0
  {
    if ds == [] then [] else [JsonOf(ds[0])] + JsonsOf(ds[1..])
  }

  function MembersOf(ms: seq<Entry>): (r: seq<Member>)
    requires forall i | 0 <= i < |ms| :: Good(ms[i].doc)
    ensures |r| == |ms| && forall i | 0 <= i < |ms| :: r[i] == Member(ms[i].key, JsonOf(ms[i].doc))
    decreases ms, 0
  {
    if ms == [] then [] else [Member(ms[0].key, JsonOf(ms[0].doc))] + MembersOf(ms[1..])
  }

  // ---------- Tokens in a text ----------

  /** Where the tokens end that follow one another from a position on, with spaces before them. */
  function After(s: string, at: nat, ts: seq<string>): (r: Option<nat>)
    requires at <= |s|
    ensures r.Some? ==> at <= r.value <= |s|
    decreases ts
  {
    if ts == [] then Some(at)
    else
      var p := Skip(s, at);
      if WordAt(s, p, ts[0]) then After(s, p + |ts[0]|, ts[1..]) else None
  }

  lemma {:induction false} AfterJoins(s: string, at: nat, a: seq<string>, b: seq<string>)
    requires at <= |s|
    ensures After(s, at, a + b) == if After(s, at, a).Some? then After(s, After(s, at, a).value, b) else None
    decreases a
  {
    if a == [] {
      assert a + b == b;
    } else {
      var p := Skip(s, at);
      assert (a + b)[1..] == a[1..] + b;
      if WordAt(s, p, a[0]) { AfterJoins(s, p + |a[0]|, a[1..], b); }
    }
  }

  lemma AfterOne(s: string, at: nat, t: string)
    requires at <= |s|
    ensures After(s, at, [t]) == if WordAt(s, Skip(s, at), t) then Some(Skip(s, at) + |t|) else None
  {
    assert [t][1..] == [];
  }

  lemma {:induction false} SkipTwice(s: string, at: nat)
    requires at <= |s|
    ensures Skip(s, Skip(s, at)) == Skip(s, at)
    decreases |s| - at
  {
    if at < |s| && IsSpace(s[at]) { SkipTwice(s, at + 1); }
  }

  lemma AfterSkip(s: string, at: nat, ts: seq<string>)
    requires at <= |s| && ts != []
    ensures After(s, Skip(s, at), ts) == After(s, at, ts)
  {
    SkipTwice(s, at);
  }

  // ---------- Numbers ----------

  /** Nothing at a position continues a number. */
  predicate Ends(s: string, at: nat) {
    at < |s| ==> !IsDigit(s[at]) && s[at] != '.' && s[at] != 'e' && s[at] != 'E'
  }

  lemma DigitsBetween(s: string, at: nat, w: string)
    requires AllDigits(w) && WordAt(s, at, w) && (at + |w| < |s| ==> !IsDigit(s[at + |w|]))
    ensures at + |w| <= |s| && DigitsEnd(s, at) == at + |w| && s[at..at + |w|] == w
  {
    DigitsEndAt(s, at, w);
  }

  lemma PowerReads(s: string, at: nat, p: Option<Power>)
    requires (p.Some? ==> GoodPower(p.value)) && WordAt(s, at, PowerText(p)) && Ends(s, at + |PowerText(p)|)
    ensures Exponent(s, at) == Ok(if p.None? then 0 else if p.value.sign == "-" then -(NatOf(p.value.digits) as int)
                                  else NatOf(p.value.digits), at + |PowerText(p)|)
  {
    hide WordAt, NatOf, AllDigits, DigitsEnd;
    if p.Some? { SomePowerReads(s, at, p.value); }
  }

  lemma SomePowerReads(s: string, at: nat, q: Power)
    requires GoodPower(q) && WordAt(s, at, [q.mark] + (q.sign + q.digits)) && Ends(s, at + 1 + |q.sign| + |q.digits|)
    ensures Exponent(s, at) == Ok(if q.sign == "-" then -(NatOf(q.digits) as int) else NatOf(q.digits),
                                  at + 1 + |q.sign| + |q.digits|)
  {
    hide WordAt, NatOf, AllDigits, DigitsEnd;
    WordParts(s, at, [q.mark], q.sign + q.digits);
    WordParts(s, at + 1, q.sign, q.digits);
    WordChar(s, at, [q.mark], 0);
    var from := at + 1 + |q.sign|;
    DigitsBetween(s, from, q.digits);
    DigitFirst(s, from, q.digits);
    if q.sign != "" { WordChar(s, at + 1, q.sign, 0); }
  }

  lemma DigitFirst(s: string, at: nat, w: string)
    requires AllDigits(w) && w != "" && WordAt(s, at, w)
    ensures at < |s| && IsDigit(s[at]) && s[at] != '-' && s[at] != '+' && s[at] != '.'
  {
    WordChar(s, at, w, 0);
  }

  /** The pieces of a number, and where they are. */
  lemma NumWords(s: string, at: nat, n: Num)
    requires WordAt(s, at, NumText(n))
    ensures var a := at + if n.negative then 1 else 0;
      var b := a + |n.whole|;
      var d := b + |FracText(n.frac)|;
      && WordAt(s, a, n.whole) && WordAt(s, b, FracText(n.frac)) && WordAt(s, d, PowerText(n.power))
      && (n.negative ==> CharAt(s, at, '-')) && d + |PowerText(n.power)| == at + |NumText(n)|
  {
    hide WordAt, PowerText, FracText;
    var sign, tail := if n.negative then "-" else "", FracText(n.frac) + PowerText(n.power);
    var a := at + |sign|;
    WordParts(s, at, sign, n.whole + tail);
    WordParts(s, a, n.whole, tail);
    WordParts(s, a + |n.whole|, FracText(n.frac), PowerText(n.power));
    if n.negative { WordChar(s, at, sign, 0); }
  }

  lemma FracReads(s: string, at: nat, f: Option<string>)
    requires WordAt(s, at, FracText(f)) && (f.Some? ==> AllDigits(f.value))
    requires at + |FracText(f)| < |s| ==> !IsDigit(s[at + |FracText(f)|]) && s[at + |FracText(f)|] != '.'
    ensures f.Some? <==> CharAt(s, at, '.')
    ensures at < |s| ==> f.Some? || !IsDigit(s[at])
    ensures var d := at + |FracText(f)|;
      f.Some? ==> at + 1 <= |s| && d == DigitsEnd(s, at + 1) == at + 1 + |f.value| && s[at + 1..d] == f.value
  {
    hide WordAt, AllDigits, DigitsEnd;
    if f.Some? {
      WordParts(s, at, ".", f.value);
      WordChar(s, at, ".", 0);
      DigitsBetween(s, at + 1, f.value);
    }
  }

  /** A number reads as its value, up to something that does not continue it. */
  lemma NumReads(s: string, at: nat, n: Num)
    requires GoodNum(n) && WordAt(s, at, NumText(n)) && Ends(s, at + |NumText(n)|)
    ensures at < |s| && (s[at] == '-' || IsDigit(s[at]))
    ensures Number(s, at) == Ok(NumValue(n), at + |NumText(n)|)
  {
    hide WordAt, NatOf, AllDigits, DigitsEnd, Exponent, PowerText, FracText, Pow10, NumText, NumValue, Number;
    var a := at + if n.negative then 1 else 0;
    var b := a + |n.whole|;
    var d := b + |FracText(n.frac)|;
    NumWords(s, at, n);
    PowerReads(s, d, n.power);
    PowerStarts(s, d, n.power);
    FracReads(s, b, n.frac);
    if n.whole != "" { DigitFirst(s, a, n.whole); }
    DigitsBetween(s, a, n.whole);
    FracLength(n.frac);
    NumberParts(s, at, n, a, b, d);
  }

  lemma FracLength(f: Option<string>)
    ensures |FracText(f)| == if f.Some? then 1 + |f.value| else 0
  {
  }

  /** What follows the fraction is no digit and no point. */
  lemma PowerStarts(s: string, at: nat, p: Option<Power>)
    requires (p.Some? ==> GoodPower(p.value)) && WordAt(s, at, PowerText(p)) && Ends(s, at + |PowerText(p)|)
    ensures at < |s| ==> !IsDigit(s[at]) && s[at] != '.'
  {
    if p.Some? { WordChar(s, at, PowerText(p), 0); }
  }

  lemma NoDigits()
    ensures AllDigits("") && NatOf("") == 0 && Pow10(0) == 1
  {
  }

  lemma NumberParts(s: string, at: nat, n: Num, a: nat, b: nat, d: nat)
    requires GoodNum(n) && at <= a <= b <= d <= |s| && (n.negative <==> CharAt(s, at, '-'))
    requires a == (if n.negative then at + 1 else at) && b == DigitsEnd(s, a) == a + |n.whole| && s[a..b] == n.whole
    requires n.frac.Some? <==> CharAt(s, b, '.')
    requires n.frac.Some? ==> b + 1 <= |s| && d == DigitsEnd(s, b + 1) == b + 1 + |n.frac.value| && s[b + 1..d] == n.frac.value
    requires n.frac.None? ==> d == b
    requires Exponent(s, d)
      == Ok(if n.power.None? then 0 else if n.power.value.sign == "-" then -(NatOf(n.power.value.digits) as int)
            else NatOf(n.power.value.digits), d + |PowerText(n.power)|)
    ensures Number(s, at) == Ok(NumValue(n), d + |PowerText(n.power)|)
  {
    hide NatOf, AllDigits, DigitsEnd, Exponent, PowerText, Pow10, Scaled;
    NoDigits();
    var whole, frac := n.whole, if n.frac.Some? then n.frac.value else "";
    assert s[b..b] == "";
    assert Decimal(whole, frac) == Mantissa(n);
    var m := if n.negative then -Mantissa(n) else Mantissa(n);
    var k: nat := if n.power.Some? then NatOf(n.power.value.digits) else 0;
    ScaledBy(m, k);
    if n.power.None? {
      assert Scaled(m, 0) == m * 1.0 == m;
    } else if n.power.value.sign == "-" {
      assert Scaled(m, -(k as int)) == NumValue(n);
    } else {
      assert Scaled(m, k) == NumValue(n);
    }
  }

  lemma ScaledBy(r: real, n: nat)
    ensures Scaled(r, n) == r * Pow10(n) as real && Scaled(r, -(n as int)) == r / Pow10(n) as real
  {
  }

  // ---------- Strings ----------

  lemma {:induction false} ScanInside(s: string, p: nat, token: string, k: nat)
    requires WordAt(s, p, token) && k <= |token| && Scan(token, k).1 < |token|
    ensures Scan(s, p + k) == (Scan(token, k).0, p + Scan(token, k).1)
    decreases |token| - k
  {
    assert k < |token|;
    WordChar(s, p, token, k);
    if token[k] == '\\' {
      if k + 1 < |token| { ScanInside(s, p, token, k + 2); }
    } else if token[k] != '"' {
      ScanInside(s, p, token, k + 1);
    }
  }

  lemma ScanStops(s: string, at: nat)
    requires at <= |s| && Scan(s, at).1 < |s|
    ensures CharAt(s, Scan(s, at).1, '"')
    decreases |s| - at
  {
    if s[at] == '\\' {
      if at + 1 < |s| { ScanStops(s, at + 2); }
    } else if s[at] != '"' {
      ScanStops(s, at + 1);
    }
  }

  /** A literal reads as its string. */
  lemma LiteralReads(s: string, at: nat, token: string, v: string)
    requires at <= |s| && Literal(token, v) && WordAt(s, Skip(s, at), token)
    ensures String(s, at) == Ok(v, Skip(s, at) + |token|)
    ensures CharAt(s, Skip(s, at), '"')
  {
    hide Scan, Unescape;
    var p := Skip(s, at);
    WordChar(s, p, token, 0);
    ScanInside(s, p, token, 1);
    var n := Scan(token, 1).0;
    SliceAt(s, p, token, 1, 1 + n);
  }

  lemma SliceAt(s: string, at: nat, w: string, i: nat, j: nat)
    requires WordAt(s, at, w) && i <= j <= |w|
    ensures s[at + i..at + j] == w[i..j]
  {
    forall k | i <= k < j ensures s[at + k] == w[k] { WordChar(s, at, w, k); }
  }

  // ---------- Documents read as their values ----------

  /** Before a closing bracket or a comma, a number has ended. */
  lemma EndsBefore(s: string, at: nat, c: char)
    requires at <= |s| && CharAt(s, Skip(s, at), c) && (c == ',' || c == ']' || c == '}')
    ensures Ends(s, at)
  {
  }

  /** What a document starts with tells its kind. */
  lemma TokensStart(d: Doc)
    requires Good(d)
    ensures Tokens(d) != [] && Tokens(d)[0] != ""
    ensures Tokens(d)[0][0] != ']' && Tokens(d)[0][0] != '}' && !IsSpace(Tokens(d)[0][0])
  {
    if d.DNum? { NumStarts(d.n); }
  }

  lemma NumStarts(n: Num)
    requires GoodNum(n)
    ensures NumText(n) != "" && (NumText(n)[0] == '-' || IsDigit(NumText(n)[0]))
  {
  }

  /** A token that stands alone. */
  lemma WordReads(s: string, at: nat, d: Doc, end: nat)
    requires at <= |s| && Good(d) && After(s, at, Tokens(d)) == Some(end) && (d.DNum? ==> Ends(s, end))
    requires !d.DArr? && !d.DObj?
    ensures Value(s, at) == Ok(JsonOf(d), end)
  {
    hide Number, String, Items, Members, Good, GoodNum, Literal, NumText, NumValue;
    var p := Skip(s, at);
    AfterOne(s, at, Tokens(d)[0]);
    GoodParts(d);
    match d
    case DNum(n) => NumReads(s, p, n); NumberAt(s, at, NumValue(n), end);
    case DStr(v, token) =>
      SkipTwice(s, at);
      LiteralReads(s, p, token, v);
    case DBool(b) => WordChar(s, p, Tokens(d)[0], 0);
    case DNull => WordChar(s, p, "null", 0);
  }

  lemma GoodParts(d: Doc)
    requires Good(d)
    ensures d.DNum? ==> GoodNum(d.n)
    ensures d.DStr? ==> Literal(d.token, d.s)
    ensures d.DArr? ==> forall i | 0 <= i < |d.items| :: Good(d.items[i])
    ensures d.DObj? ==> forall i | 0 <= i < |d.members| ::
      Literal(d.members[i].token, d.members[i].key) && Good(d.members[i].doc)
  {
  }

  lemma NumberAt(s: string, at: nat, r: real, next: nat)
    requires at <= |s| && var p := Skip(s, at); p < |s| && (s[p] == '-' || IsDigit(s[p])) && Number(s, p) == Ok(r, next)
    ensures Value(s, at) == Ok(JNumber(r), next)
  {
    hide Items, Members, String, Number;
    var p := Skip(s, at);
    if WordAt(s, p, "true") { WordChar(s, p, "true", 0); }
    if WordAt(s, p, "false") { WordChar(s, p, "false", 0); }
    if WordAt(s, p, "null") { WordChar(s, p, "null", 0); }
  }

  /** Every document, laid out with any spaces, reads as its value. */
  lemma {:induction false} DocReads(s: string, at: nat, d: Doc, end: nat)
    requires at <= |s| && Good(d) && After(s, at, Tokens(d)) == Some(end) && (d.DNum? ==> Ends(s, end))
    ensures Value(s, at) == Ok(JsonOf(d), end)
    decreases d, 2
  {
    hide Value, Good, After;
    match d
    case DArr(_) => ArrayReads(s, at, d, end);
    case DObj(_) => ObjectReads(s, at, d, end);
    case _ => WordReads(s, at, d, end);
  }

  lemma {:induction false} ArrayReads(s: string, at: nat, d: Doc, end: nat)
    requires at <= |s| && d.DArr? && Good(d) && After(s, at, Tokens(d)) == Some(end)
    ensures Value(s, at) == Ok(JsonOf(d), end)
    decreases d, 1
  {
    hide Value, Good, WordAt, After, Skip, ItemTokens, JsonsOf, Items;
    GoodParts(d);
    var items, p := d.items, Skip(s, at);
    var m := BracketsAfter(s, at, "[", ItemTokens(items), "]", end);
    if items == [] {
      NoTokens(s, p + 1, m);
      EmptyArrayAt(s, at, end);
    } else {
      ItemsRead(s, p + 1, items, m);
      ItemsStart(items);
      ItemsAt(s, p + 1);
      FirstIs(s, p + 1, ItemTokens(items), m);
      ArrayAt(s, at, JsonsOf(items), end);
    }
  }

  lemma {:induction false} ObjectReads(s: string, at: nat, d: Doc, end: nat)
    requires at <= |s| && d.DObj? && Good(d) && After(s, at, Tokens(d)) == Some(end)
    ensures Value(s, at) == Ok(JsonOf(d), end)
    decreases d, 1
  {
    hide Value, Good, Literal, WordAt, After, Skip, MemberTokens, MembersOf, Members;
    GoodParts(d);
    var members, p := d.members, Skip(s, at);
    var m := BracketsAfter(s, at, "{", MemberTokens(members), "}", end);
    if members == [] {
      NoTokens(s, p + 1, m);
      EmptyObjectAt(s, at, end);
    } else {
      MembersRead(s, p + 1, members, m);
      MembersStart(members);
      MembersAt(s, p + 1);
      FirstIs(s, p + 1, MemberTokens(members), m);
      ObjectAt(s, at, MembersOf(members), end);
    }
  }

  lemma NoTokens(s: string, at: nat, m: nat)
    ensures ItemTokens([]) == [] && MemberTokens([]) == [] && JsonsOf([]) == [] && MembersOf([]) == []
    ensures at <= |s| && After(s, at, []) == Some(m) ==> m == at
  {
  }

  /** An opening bracket, tokens, and a closing bracket. */
  lemma BracketsAfter(s: string, at: nat, open: string, ts: seq<string>, close: string, end: nat) returns (m: nat)
    requires at <= |s| && |open| == |close| == 1 && After(s, at, [open] + ts + [close]) == Some(end)
    ensures CharAt(s, Skip(s, at), open[0]) && After(s, Skip(s, at) + 1, ts) == Some(m)
    ensures m <= |s| && CharAt(s, Skip(s, m), close[0]) && end == Skip(s, m) + 1
  {
    hide After, Skip;
    AfterJoins(s, at, [open] + ts, [close]);
    AfterJoins(s, at, [open], ts);
    AfterOne(s, at, open);
    m := After(s, at, [open] + ts).value;
    AfterOne(s, m, close);
    WordChar(s, Skip(s, at), open, 0);
    WordChar(s, Skip(s, m), close, 0);
  }

  lemma EmptyArrayAt(s: string, at: nat, end: nat)
    requires at <= |s| && CharAt(s, Skip(s, at), '[')
    requires CharAt(s, Skip(s, Skip(s, at) + 1), ']') && end == Skip(s, Skip(s, at) + 1) + 1
    ensures Value(s, at) == Ok(JArray([]), end)
  {
    hide Items, Members, String, Number;
  }

  lemma ArrayAt(s: string, at: nat, vs: seq<Json>, end: nat)
    requires at <= |s| && CharAt(s, Skip(s, at), '[')
    requires var q := Skip(s, Skip(s, at) + 1); !CharAt(s, q, ']') && Items(s, q) == Ok(vs, end)
    ensures Value(s, at) == Ok(JArray(vs), end)
  {
    hide Items, Members, String, Number;
  }

  lemma EmptyObjectAt(s: string, at: nat, end: nat)
    requires at <= |s| && CharAt(s, Skip(s, at), '{')
    requires CharAt(s, Skip(s, Skip(s, at) + 1), '}') && end == Skip(s, Skip(s, at) + 1) + 1
    ensures Value(s, at) == Ok(JObject([]), end)
  {
    hide Items, Members, String, Number;
  }

  lemma ObjectAt(s: string, at: nat, ms: seq<Member>, end: nat)
    requires at <= |s| && CharAt(s, Skip(s, at), '{')
    requires var q := Skip(s, Skip(s, at) + 1); !CharAt(s, q, '}') && Members(s, q) == Ok(ms, end)
    ensures Value(s, at) == Ok(JObject(ms), end)
  {
    hide Items, Members, String, Number;
  }

  /** Spaces before a value, an item or a member do not matter. */
  lemma ValueAt(s: string, at: nat)
    requires at <= |s|
    ensures Value(s, Skip(s, at)) == Value(s, at)
  {
    hide String, Number, Members, Items;
    SkipTwice(s, at);
  }

  lemma ItemsAt(s: string, at: nat)
    requires at <= |s|
    ensures Items(s, Skip(s, at)) == Items(s, at)
  {
    hide Value, Skip;
    ValueAt(s, at);
  }

  lemma StringAt(s: string, at: nat)
    requires at <= |s|
    ensures String(s, Skip(s, at)) == String(s, at)
  {
    hide Scan, Unescape;
    SkipTwice(s, at);
  }

  lemma KeyValueAt(s: string, at: nat)
    requires at <= |s|
    ensures KeyValue(s, Skip(s, at)) == KeyValue(s, at)
  {
    hide Value, String, Skip;
    StringAt(s, at);
  }

  lemma MembersAt(s: string, at: nat)
    requires at <= |s|
    ensures Members(s, Skip(s, at)) == Members(s, at)
  {
    hide KeyValue, Skip;
    KeyValueAt(s, at);
  }

  /** Tokens found behind spaces start there. */
  lemma FirstIs(s: string, at: nat, ts: seq<string>, m: nat)
    requires at <= |s| && ts != [] && ts[0] != "" && After(s, at, ts) == Some(m)
    ensures CharAt(s, Skip(s, at), ts[0][0])
  {
    WordChar(s, Skip(s, at), ts[0], 0);
  }

  lemma ItemsStart(ds: seq<Doc>)
    requires ds != [] && Good(ds[0])
    ensures ItemTokens(ds) != [] && ItemTokens(ds)[0] != "" && ItemTokens(ds)[0][0] != ']'
  {
    TokensStart(ds[0]);
  }

  lemma MembersStart(ms: seq<Entry>)
    requires ms != [] && Literal(ms[0].token, ms[0].key)
    ensures MemberTokens(ms) != [] && MemberTokens(ms)[0] != "" && MemberTokens(ms)[0][0] != '}'
  {
  }

  /** The items of an array, separated by commas. */
  lemma {:induction false} ItemsRead(s: string, at: nat, ds: seq<Doc>, end: nat)
    requires at <= |s| && ds != [] && (forall i | 0 <= i < |ds| :: Good(ds[i]))
    requires After(s, at, ItemTokens(ds)) == Some(end) && CharAt(s, Skip(s, end), ']')
    ensures Items(s, at) == Ok(JsonsOf(ds), Skip(s, end) + 1)
    decreases ds, 0
  {
    hide Value, Good, Tokens, JsonOf, After, Skip;
    if |ds| == 1 {
      EndsBefore(s, end, ']');
      DocReads(s, at, ds[0], end);
      assert JsonsOf(ds) == [JsonOf(ds[0])];
    } else {
      var m := CommaAfter(s, at, Tokens(ds[0]), ItemTokens(ds[1..]), end);
      EndsBefore(s, m, ',');
      DocReads(s, at, ds[0], m);
      ItemsRead(s, Skip(s, m) + 1, ds[1..], end);
    }
  }

  /** Tokens, a comma, and tokens. */
  lemma CommaAfter(s: string, at: nat, a: seq<string>, b: seq<string>, end: nat) returns (m: nat)
    requires at <= |s| && After(s, at, a + [","] + b) == Some(end)
    ensures m <= |s| && After(s, at, a) == Some(m) && CharAt(s, Skip(s, m), ',') && After(s, Skip(s, m) + 1, b) == Some(end)
  {
    hide After, Skip;
    AfterJoins(s, at, a + [","], b);
    AfterJoins(s, at, a, [","]);
    m := After(s, at, a).value;
    AfterOne(s, m, ",");
    WordChar(s, Skip(s, m), ",", 0);
  }

  /** A key, a colon and a value. */
  lemma {:induction false} EntryReads(s: string, at: nat, e: Entry, end: nat)
    requires at <= |s| && Literal(e.token, e.key) && Good(e.doc) && (e.doc.DNum? ==> Ends(s, end))
    requires After(s, at, [e.token, ":"] + Tokens(e.doc)) == Some(end)
    ensures KeyValue(s, at) == Ok(Member(e.key, JsonOf(e.doc)), end)
    decreases e, 0
  {
    hide Value, Good, Literal, String, Tokens, After, Skip;
    AfterJoins(s, at, [e.token, ":"], Tokens(e.doc));
    assert [e.token, ":"] == [e.token] + [":"];
    AfterJoins(s, at, [e.token], [":"]);
    AfterOne(s, at, e.token);
    LiteralReads(s, at, e.token, e.key);
    var k := Skip(s, at) + |e.token|;
    AfterOne(s, k, ":");
    WordChar(s, Skip(s, k), ":", 0);
    DocReads(s, Skip(s, k) + 1, e.doc, end);
  }

  /** The members of an object, separated by commas. */
  lemma {:induction false} MembersRead(s: string, at: nat, ms: seq<Entry>, end: nat)
    requires at <= |s| && ms != []
    requires forall i | 0 <= i < |ms| :: Literal(ms[i].token, ms[i].key) && Good(ms[i].doc)
    requires After(s, at, MemberTokens(ms)) == Some(end) && CharAt(s, Skip(s, end), '}')
    ensures Members(s, at) == Ok(MembersOf(ms), Skip(s, end) + 1)
    decreases ms, 0
  {
    hide KeyValue, Good, Literal, Tokens, JsonOf, After, Skip;
    if |ms| == 1 {
      EndsBefore(s, end, '}');
      EntryReads(s, at, ms[0], end);
      assert MembersOf(ms) == [Member(ms[0].key, JsonOf(ms[0].doc))];
    } else {
      var m := CommaAfter(s, at, [ms[0].token, ":"] + Tokens(ms[0].doc), MemberTokens(ms[1..]), end);
      EndsBefore(s, m, ',');
      EntryReads(s, at, ms[0], m);
      MembersRead(s, Skip(s, m) + 1, ms[1..], end);
    }
  }

  // ---------- Any spaces ----------

  /** Nothing but blanks, tabs and ends of line. */
  predicate Blank(w: string) {
    forall i | 0 <= i < |w| :: w[i] == ' ' || w[i] == '\t' || w[i] == '\r' || w[i] == '\n'
  }

  /** The tokens with gaps before, between and behind them. */
  function Spaced(ts: seq<string>, gaps: seq<string>): string
    requires |gaps| == |ts| + 1
  {
    if ts == [] then gaps[0] else gaps[0] + (ts[0] + Spaced(ts[1..], gaps[1..]))
  }

  lemma {:induction false} SkipBlank(s: string, at: nat, w: string)
    requires WordAt(s, at, w) && Blank(w) && at + |w| < |s| && !IsSpace(s[at + |w|])
    ensures Skip(s, at) == at + |w|
    decreases |w|
  {
    if w != "" {
      WordChar(s, at, w, 0);
      assert w == w[..1] + w[1..];
      WordParts(s, at, w[..1], w[1..]);
      SkipBlank(s, at + 1, w[1..]);
    }
  }

  /** Tokens are found behind their gaps. */
  lemma {:induction false} SpacedAfter(s: string, at: nat, ts: seq<string>, gaps: seq<string>)
    requires |gaps| == |ts| + 1 && (forall i | 0 <= i < |gaps| :: Blank(gaps[i]))
    requires forall i | 0 <= i < |ts| :: ts[i] != "" && !IsSpace(ts[i][0])
    requires WordAt(s, at, Spaced(ts, gaps))
    ensures at <= |s| && |gaps[|ts|]| <= |Spaced(ts, gaps)|
    ensures After(s, at, ts) == Some(at + |Spaced(ts, gaps)| - |gaps[|ts|]|)
    decreases ts
  {
    hide Blank, IsSpace, WordAt;
    if ts == [] {
      WordInside(s, at, gaps[0]);
    } else {
      var rest := Spaced(ts[1..], gaps[1..]);
      var p := at + |gaps[0]|;
      WordParts(s, at, gaps[0], ts[0] + rest);
      WordParts(s, p, ts[0], rest);
      WordChar(s, p, ts[0], 0);
      SkipBlank(s, at, gaps[0]);
      SpacedAfter(s, p + |ts[0]|, ts[1..], gaps[1..]);
    }
  }

  lemma WordInside(s: string, at: nat, w: string)
    requires WordAt(s, at, w)
    ensures at + |w| <= |s|
  {
  }

  lemma {:induction false} TokensPlain(d: Doc)
    requires Good(d)
    ensures forall i | 0 <= i < |Tokens(d)| :: Tokens(d)[i] != "" && !IsSpace(Tokens(d)[i][0])
    decreases d, 1
  {
    hide Good;
    GoodParts(d);
    match d
    case DArr(items) => ItemTokensPlain(items);
    case DObj(members) => MemberTokensPlain(members);
    case _ => TokensStart(d);
  }

  lemma {:induction false} ItemTokensPlain(ds: seq<Doc>)
    requires forall i | 0 <= i < |ds| :: Good(ds[i])
    ensures forall i | 0 <= i < |ItemTokens(ds)| :: ItemTokens(ds)[i] != "" && !IsSpace(ItemTokens(ds)[i][0])
    decreases ds, 0
  {
    hide Good, Tokens;
    if ds != [] {
      TokensPlain(ds[0]);
      ItemTokensPlain(ds[1..]);
    }
  }

  lemma {:induction false} MemberTokensPlain(ms: seq<Entry>)
    requires forall i | 0 <= i < |ms| :: Literal(ms[i].token, ms[i].key) && Good(ms[i].doc)
    ensures forall i | 0 <= i < |MemberTokens(ms)| :: MemberTokens(ms)[i] != "" && !IsSpace(MemberTokens(ms)[i][0])
    decreases ms, 0
  {
    hide Good, Tokens;
    if ms != [] {
      TokensPlain(ms[0].doc);
      MemberTokensPlain(ms[1..]);
    }
  }

  /** A document reads as its value with any gaps before, between and behind its tokens. */
  lemma DocumentReads(d: Doc, gaps: seq<string>)
    requires Good(d) && |gaps| == |Tokens(d)| + 1 && forall i | 0 <= i < |gaps| :: Blank(gaps[i])
    ensures var s := Spaced(Tokens(d), gaps);
      |gaps[|Tokens(d)|]| <= |s| && Value(s, 0) == Ok(JsonOf(d), |s| - |gaps[|Tokens(d)|]|)
  {
    hide Good, Tokens, JsonOf, Value, Blank, After, Spaced;
    var s, ts := Spaced(Tokens(d), gaps), Tokens(d);
    assert s[0..0 + |s|] == s;
    TokensPlain(d);
    SpacedAfter(s, 0, ts, gaps);
    var end := |s| - |gaps[|ts|]|;
    GapAtEnd(ts, gaps);
    BlankEnds(s, end, gaps[|ts|]);
    DocReads(s, 0, d, end);
  }

  lemma {:induction false} GapAtEnd(ts: seq<string>, gaps: seq<string>)
    requires |gaps| == |ts| + 1
    ensures var s, last := Spaced(ts, gaps), gaps[|ts|]; |last| <= |s| && s[|s| - |last|..] == last
    decreases ts
  {
    if ts != [] { GapAtEnd(ts[1..], gaps[1..]); }
  }

  lemma BlankEnds(s: string, end: nat, gap: string)
    requires end <= |s| && s[end..] == gap && Blank(gap)
    ensures Ends(s, end)
  {
    if end < |s| { assert s[end] == gap[0]; }
  }

  // ---------- Nothing else is read ----------

  /** A string literal starts here, and the text ends before its closing quote. */
  predicate Unclosed(s: string, at: nat)
    requires at <= |s|
  {
    CharAt(s, Skip(s, at), '"') && Scan(s, Skip(s, at) + 1).1 == |s|
  }

  lemma {:induction false} ScanSlice(s: string, p: nat, e: nat, k: nat)
    requires p + k <= e < |s| && Scan(s, p + k).1 == e
    ensures Scan(s[p..e + 1], k) == (Scan(s, p + k).0, e - p)
    decreases |s| - (p + k)
  {
    var token := s[p..e + 1];
    assert token[k] == s[p + k];
    if s[p + k] == '\\' {
      ScanSlice(s, p, e, k + 2);
    } else if s[p + k] != '"' {
      ScanSlice(s, p, e, k + 1);
    }
  }

  /** What reads as a string is a literal. */
  lemma StringIsLiteral(s: string, at: nat) returns (token: string)
    requires at <= |s| && String(s, at).Ok? && !Unclosed(s, at)
    ensures Literal(token, String(s, at).value) && After(s, at, [token]) == Some(String(s, at).next)
  {
    hide Scan, Unescape, Skip;
    var p := Skip(s, at);
    var (n, e) := Scan(s, p + 1);
    token := s[p..e + 1];
    ScanSlice(s, p, e, 1);
    assert token[1..1 + n] == s[p + 1..p + 1 + n];
    AfterOne(s, at, token);
  }

  /** What reads as an exponent is one, or there is none. */
  lemma ExponentIsPower(s: string, at: nat) returns (p: Option<Power>)
    requires at <= |s|
    ensures p.Some? ==> GoodPower(p.value)
    ensures WordAt(s, at, PowerText(p))
    ensures Exponent(s, at) == Ok(if p.None? then 0 else if p.value.sign == "-" then -(NatOf(p.value.digits) as int)
                                  else NatOf(p.value.digits), at + |PowerText(p)|)
  {
    hide NatOf, DigitsEnd, AllDigits, PowerText, WordAt;
    p := None;
    NoPower(s, at);
    if CharAt(s, at, 'e') || CharAt(s, at, 'E') {
      var from := if CharAt(s, at + 1, '-') || CharAt(s, at + 1, '+') then at + 2 else at + 1;
      var end := DigitsEnd(s, from);
      if end > from {
        DigitsSlice(s, from);
        p := Some(Power(s[at], s[at + 1..from], s[from..end]));
        PowerSlice(s, at, from, end, p.value);
      }
    }
  }

  lemma NoPower(s: string, at: nat)
    requires at <= |s|
    ensures WordAt(s, at, PowerText(None)) && |PowerText(None)| == 0
  {
  }

  lemma DigitsSlice(s: string, at: nat)
    requires at <= |s|
    ensures AllDigits(s[at..DigitsEnd(s, at)])
  {
  }

  lemma PowerSlice(s: string, at: nat, from: nat, end: nat, p: Power)
    requires at + 1 <= from <= at + 2 && from < end <= |s| && p == Power(s[at], s[at + 1..from], s[from..end])
    ensures WordAt(s, at, PowerText(Some(p))) && at + |PowerText(Some(p))| == end
    ensures p.sign == if from == at + 1 then "" else [s[at + 1]]
  {
    assert s[at..end] == [s[at]] + (s[at + 1..from] + s[from..end]);
  }

  lemma NumberShape(s: string, at: nat)
    requires at < |s| && (s[at] == '-' || IsDigit(s[at])) && Number(s, at).Ok?
    ensures var a := if CharAt(s, at, '-') then at + 1 else at;
      var b := DigitsEnd(s, a);
      b == a ==> a == at + 1 && CharAt(s, b, '.') && DigitsEnd(s, b + 1) > b + 1
  {
    hide Exponent;
  }

  /** What reads as a number is one. */
  lemma NumberIsNum(s: string, at: nat) returns (n: Num)
    requires at < |s| && (s[at] == '-' || IsDigit(s[at])) && Number(s, at).Ok?
    ensures GoodNum(n) && WordAt(s, at, NumText(n)) && Number(s, at) == Ok(NumValue(n), at + |NumText(n)|)
  {
    hide NatOf, Pow10, Exponent, PowerText, Mantissa, NumValue, FracText, NumText, Number, DigitsEnd, AllDigits;
    NumberShape(s, at);
    var a := if CharAt(s, at, '-') then at + 1 else at;
    var b := DigitsEnd(s, a);
    var c := if CharAt(s, b, '.') then b + 1 else b;
    var d := if CharAt(s, b, '.') then DigitsEnd(s, c) else c;
    var power := ExponentIsPower(s, d);
    n := Num(CharAt(s, at, '-'), s[a..b], if CharAt(s, b, '.') then Some(s[c..d]) else None, power);
    DigitsSlice(s, a);
    DigitsSlice(s, c);
    FracSlice(s, b, d, n.frac);
    NumText3(s, at, a, b, d, n);
    NumberParts(s, at, n, a, b, d);
  }

  lemma FracSlice(s: string, b: nat, d: nat, f: Option<string>)
    requires b <= d <= |s| && (f.None? ==> d == b) && (f.Some? ==> CharAt(s, b, '.') && b < d && f.value == s[b + 1..d])
    ensures s[b..d] == FracText(f)
  {
    if f.Some? { assert s[b..d] == "." + s[b + 1..d]; }
  }

  lemma NumText3(s: string, at: nat, a: nat, b: nat, d: nat, n: Num)
    requires at <= a <= b <= d <= |s| && a == (if n.negative then at + 1 else at) && (n.negative ==> CharAt(s, at, '-'))
    requires s[a..b] == n.whole && s[b..d] == FracText(n.frac) && WordAt(s, d, PowerText(n.power))
    ensures WordAt(s, at, NumText(n)) && at + |NumText(n)| == d + |PowerText(n.power)|
  {
    hide PowerText, FracText;
    var e := d + |PowerText(n.power)|;
    assert s[at..a] == if n.negative then "-" else "";
    assert s[at..e] == s[at..a] + (s[a..b] + (s[b..d] + s[d..e]));
  }

  /** Where a value read before a comma or a bracket ends, no literal is left unclosed. */
  lemma ClosedBefore(s: string, at: nat, c: char)
    requires at <= |s| && Value(s, at).Ok? && CharAt(s, Skip(s, Value(s, at).next), c)
    ensures !Unclosed(s, at)
  {
    hide Items, Members, Number, Unescape;
    SkipTwice(s, at);
  }

  lemma KeyClosed(s: string, at: nat, c: char)
    requires at <= |s| && String(s, at).Ok? && CharAt(s, Skip(s, String(s, at).next), c)
    ensures !Unclosed(s, at)
  {
    hide Unescape;
  }

  /** Whatever reads as a value is a document laid out there, unless it is an unclosed literal. */
  lemma {:induction false} ValueIsDoc(s: string, at: nat) returns (d: Doc)
    requires at <= |s| && Value(s, at).Ok? && !Unclosed(s, at)
    ensures Good(d) && After(s, at, Tokens(d)) == Some(Value(s, at).next) && JsonOf(d) == Value(s, at).value
    decreases |s| - at, 2
  {
    hide Items, Members, Number, String, Unclosed, After, NumText, NumValue, GoodNum, Literal, Scan;
    var p := Skip(s, at);
    SkipTwice(s, at);
    if CharAt(s, p, '[') {
      d := ArrayIsDoc(s, at);
    } else if CharAt(s, p, '{') {
      d := ObjectIsDoc(s, at);
    } else {
      d := WordIsDoc(s, at);
    }
  }

  lemma WordIsDoc(s: string, at: nat) returns (d: Doc)
    requires at <= |s| && Value(s, at).Ok? && !Unclosed(s, at)
    requires !CharAt(s, Skip(s, at), '[') && !CharAt(s, Skip(s, at), '{')
    ensures Good(d) && After(s, at, Tokens(d)) == Some(Value(s, at).next) && JsonOf(d) == Value(s, at).value
  {
    hide Items, Members, Number, String, Unclosed, After, NumText, NumValue, GoodNum, Literal;
    var p := Skip(s, at);
    if CharAt(s, p, '"') {
      UnclosedAt(s, at);
      StringAt(s, at);
      var token := StringIsLiteral(s, at);
      d := DStr(String(s, at).value, token);
    } else if WordAt(s, p, "true") {
      d := DBool(true);
      AfterOne(s, at, "true");
    } else if WordAt(s, p, "false") {
      d := DBool(false);
      AfterOne(s, at, "false");
    } else if WordAt(s, p, "null") {
      d := DNull;
      AfterOne(s, at, "null");
    } else {
      var n := NumberIsNum(s, p);
      d := DNum(n);
      AfterOne(s, at, NumText(n));
    }
  }

  lemma UnclosedAt(s: string, at: nat)
    requires at <= |s|
    ensures Unclosed(s, Skip(s, at)) == Unclosed(s, at)
  {
    SkipTwice(s, at);
  }

  lemma {:induction false} ArrayIsDoc(s: string, at: nat) returns (d: Doc)
    requires at <= |s| && Value(s, at).Ok? && CharAt(s, Skip(s, at), '[')
    ensures Good(d) && After(s, at, Tokens(d)) == Some(Value(s, at).next) && JsonOf(d) == Value(s, at).value
    decreases |s| - at, 1
  {
    hide Items, Members, Number, String, After, Good, JsonsOf, ItemTokens;
    var p := Skip(s, at);
    var q := Skip(s, p + 1);
    AfterOpen(s, at, "[");
    NoTokens(s, p + 1, p + 1);
    var ds, m := [], p + 1;
    if !CharAt(s, q, ']') {
      ds, m := ItemsAreDocs(s, q);
      ItemTokensSome(ds);
      AfterSkip(s, p + 1, ItemTokens(ds));
    } else {
      AfterNone(s, p + 1);
    }
    AfterOne(s, m, "]");
    AfterJoins(s, at, ["["], ItemTokens(ds));
    AfterJoins(s, at, ["["] + ItemTokens(ds), ["]"]);
    d := DArr(ds);
    GoodArray(ds);
  }

  lemma AfterNone(s: string, at: nat)
    requires at <= |s|
    ensures After(s, at, []) == Some(at)
  {
  }

  lemma AfterOpen(s: string, at: nat, open: string)
    requires at <= |s| && |open| == 1 && CharAt(s, Skip(s, at), open[0])
    ensures After(s, at, [open]) == Some(Skip(s, at) + 1)
  {
    AfterOne(s, at, open);
  }

  lemma ItemTokensSome(ds: seq<Doc>)
    requires ds != [] && Good(ds[0])
    ensures ItemTokens(ds) != []
  {
    TokensStart(ds[0]);
  }

  lemma GoodArray(ds: seq<Doc>)
    ensures Good(DArr(ds)) <==> forall i | 0 <= i < |ds| :: Good(ds[i])
  {
  }

  lemma GoodObject(ms: seq<Entry>)
    ensures Good(DObj(ms)) <==> forall i | 0 <= i < |ms| :: Literal(ms[i].token, ms[i].key) && Good(ms[i].doc)
  {
  }

  /** What reads as the rest of an array is documents separated by commas. */
  lemma {:induction false} ItemsAreDocs(s: string, at: nat) returns (ds: seq<Doc>, m: nat)
    requires at <= |s| && Items(s, at).Ok?
    ensures ds != [] && (forall i | 0 <= i < |ds| :: Good(ds[i])) && JsonsOf(ds) == Items(s, at).value
    ensures After(s, at, ItemTokens(ds)) == Some(m) && m <= |s|
    ensures CharAt(s, Skip(s, m), ']') && Items(s, at).next == Skip(s, m) + 1
    decreases |s| - at, 3
  {
    hide Value, Good, After, Skip, Tokens, JsonOf, Unclosed;
    var v := Value(s, at);
    var p := Skip(s, v.next);
    if CharAt(s, p, ']') {
      ClosedBefore(s, at, ']');
      var d := ValueIsDoc(s, at);
      ds, m := [d], v.next;
    } else {
      ClosedBefore(s, at, ',');
      var d := ValueIsDoc(s, at);
      var more;
      more, m := ItemsAreDocs(s, p + 1);
      ds := [d] + more;
      assert ds[1..] == more;
      AfterOpen(s, v.next, ",");
      AfterJoins(s, at, Tokens(d), [","]);
      AfterJoins(s, at, Tokens(d) + [","], ItemTokens(more));
    }
  }

  lemma {:induction false} ObjectIsDoc(s: string, at: nat) returns (d: Doc)
    requires at <= |s| && Value(s, at).Ok? && CharAt(s, Skip(s, at), '{')
    ensures Good(d) && After(s, at, Tokens(d)) == Some(Value(s, at).next) && JsonOf(d) == Value(s, at).value
    decreases |s| - at, 1
  {
    hide Items, Members, Number, String, After, Good, MembersOf, MemberTokens, Literal;
    var p := Skip(s, at);
    var q := Skip(s, p + 1);
    AfterOpen(s, at, "{");
    NoTokens(s, p + 1, p + 1);
    var ms, m := [], p + 1;
    if !CharAt(s, q, '}') {
      ms, m := MembersAreEntries(s, q);
      MembersStart(ms);
      AfterSkip(s, p + 1, MemberTokens(ms));
    } else {
      AfterNone(s, p + 1);
    }
    AfterOne(s, m, "}");
    AfterJoins(s, at, ["{"], MemberTokens(ms));
    AfterJoins(s, at, ["{"] + MemberTokens(ms), ["}"]);
    d := DObj(ms);
    GoodObject(ms);
  }

  lemma {:induction false} KeyValueIsEntry(s: string, at: nat, c: char) returns (e: Entry)
    requires at <= |s| && KeyValue(s, at).Ok? && CharAt(s, Skip(s, KeyValue(s, at).next), c)
    ensures Literal(e.token, e.key) && Good(e.doc) && Member(e.key, JsonOf(e.doc)) == KeyValue(s, at).value
    ensures After(s, at, [e.token, ":"] + Tokens(e.doc)) == Some(KeyValue(s, at).next)
    decreases |s| - at, 3
  {
    hide Value, Good, After, Skip, Tokens, JsonOf, Unclosed, String, Literal;
    var k := String(s, at);
    var p := Skip(s, k.next);
    KeyClosed(s, at, ':');
    var token := StringIsLiteral(s, at);
    ClosedBefore(s, p + 1, c);
    var d := ValueIsDoc(s, p + 1);
    e := Entry(k.value, token, d);
    AfterOpen(s, k.next, ":");
    AfterJoins(s, at, [token], [":"]);
    assert [token] + [":"] == [token, ":"];
    AfterJoins(s, at, [token, ":"], Tokens(d));
  }

  lemma {:induction false} MembersAreEntries(s: string, at: nat) returns (ms: seq<Entry>, m: nat)
    requires at <= |s| && Members(s, at).Ok?
    ensures ms != [] && forall i | 0 <= i < |ms| :: Literal(ms[i].token, ms[i].key) && Good(ms[i].doc)
    ensures MembersOf(ms) == Members(s, at).value
    ensures After(s, at, MemberTokens(ms)) == Some(m) && m <= |s|
    ensures CharAt(s, Skip(s, m), '}') && Members(s, at).next == Skip(s, m) + 1
    decreases |s| - at, 4
  {
    hide KeyValue, Good, After, Skip, Tokens, JsonOf, Literal;
    var kv := KeyValue(s, at);
    var p := Skip(s, kv.next);
    if CharAt(s, p, '}') {
      var e := KeyValueIsEntry(s, at, '}');
      ms, m := [e], kv.next;
    } else {
      var e := KeyValueIsEntry(s, at, ',');
      var more;
      more, m := MembersAreEntries(s, p + 1);
      ms := [e] + more;
      assert ms[1..] == more;
      var first := [e.token, ":"] + Tokens(e.doc);
      AfterOpen(s, kv.next, ",");
      AfterJoins(s, at, first, [","]);
      AfterJoins(s, at, first + [","], MemberTokens(more));
    }
  }
}
