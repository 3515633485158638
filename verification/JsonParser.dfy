// The recursive-descent JSON reader of src/parser.c, which advances a position step by step.
module JsonParser {
  import opened Seqs
  import opened Json

  /** A successful read behind the values xs already read. */
  function Behind<T>(xs: seq<T>, r: Parsed<seq<T>>): Parsed<seq<T>> {
    if r.Ok? then Ok(xs + r.value, r.next) else Bad
  }

  lemma BehindNothing<T>(r: Parsed<seq<T>>)
    ensures Behind([], r) == r
  {
    if r.Ok? { assert [] + r.value == r.value; }
  }

  /** One step of the array loop: a value was read and a separator follows. */
  lemma ItemRead(s: string, at: nat, xs: seq<Json>, v: Json, next: nat)
    requires at <= |s| && Value(s, at) == Ok(v, next)
    ensures next <= |s|
    ensures var p := Skip(s, next);
      Behind(xs, Items(s, at)) ==
        if CharAt(s, p, ']') then Ok(xs + [v], p + 1)
        else if CharAt(s, p, ',') then Behind(xs + [v], Items(s, p + 1))
        else Bad
  {
    hide Value;
    var p := Skip(s, next);
    if CharAt(s, p, ',') && Items(s, p + 1).Ok? {
      assert xs + ([v] + Items(s, p + 1).value) == xs + [v] + Items(s, p + 1).value;
    }
  }

  lemma MemberRead(s: string, at: nat, xs: seq<Member>, m: Member, next: nat)
    requires at <= |s| && KeyValue(s, at) == Ok(m, next)
    ensures next <= |s|
    ensures var p := Skip(s, next);
      Behind(xs, Members(s, at)) ==
        if CharAt(s, p, '}') then Ok(xs + [m], p + 1)
        else if CharAt(s, p, ',') then Behind(xs + [m], Members(s, p + 1))
        else Bad
  {
    hide KeyValue;
    var p := Skip(s, next);
    if CharAt(s, p, ',') && Members(s, p + 1).Ok? {
      assert xs + ([m] + Members(s, p + 1).value) == xs + [m] + Members(s, p + 1).value;
    }
  }

  class ParserState {
    const input: string
    var pos: nat

    constructor (text: string)
      ensures input == text && pos == 0
    {
      input, pos := text, 0;
    }

    /** The outcome a call has to report, and where it has to leave the position when it succeeds. */
    ghost predicate Agrees<T>(r: Parsed<T>, found: Option<T>)
      reads this`pos
    {
      && pos <= |input|
      && match r
         case Ok(v, next) => found == Some(v) && pos == next
         case Bad => found == None
    }

    method SkipWhitespace()
      requires pos <= |input|
      modifies this`pos
      ensures pos == Skip(input, old(pos)) <= |input|
      ensures old(pos) <= pos && forall i | old(pos) <= i < pos ::
        input[i] == ' ' || input[i] == '\t' || input[i] == '\r' || input[i] == '\n'
      ensures pos < |input| ==> input[pos] != ' ' && input[pos] != '\t' && input[pos] != '\r' && input[pos] != '\n'
    {
      while pos < |input|
        invariant old(pos) <= pos <= |input| && Skip(input, pos) == Skip(input, old(pos))
        invariant forall i | old(pos) <= i < pos ::
          input[i] == ' ' || input[i] == '\t' || input[i] == '\r' || input[i] == '\n'
      {
        var c := input[pos];
        if c == ' ' || c == '\t' || c == '\r' {
          pos := pos + 1;
        } else if c == '\n' {
          pos := pos + 1;
        } else {
          break;
        }
      }
    }

    function Peek(): (c: char)
      reads this`pos
      ensures c != '\0' ==> CharAt(input, pos, c)
      ensures forall d | d != '\0' && CharAt(input, pos, d) :: c == d
    {
      if pos >= |input| then '\0' else input[pos]
    }

    method Consume()
      requires pos <= |input|
      modifies this`pos
      ensures pos == if old(pos) < |input| then old(pos) + 1 else old(pos)
    {
      if pos < |input| { pos := pos + 1; }
    }

    method Expect(c: char) returns (ok: bool)
      requires pos <= |input| && c != '\0'
      modifies this`pos
      ensures pos <= |input|
      ensures var p := Skip(input, old(pos)); ok == CharAt(input, p, c) && (ok ==> pos == p + 1)
    {
      SkipWhitespace();
      if Peek() != c { return false; }
      Consume();
      return true;
    }

    /** The first pass over a string literal: counts what it denotes and stops at its end. */
    method ScanString() returns (len: nat)
      requires pos <= |input|
      modifies this`pos
      ensures (len, pos) == Scan(input, old(pos)) && pos <= |input|
    {
      len := 0;
      while pos < |input|
        invariant pos <= |input|
        invariant var (n, end) := Scan(input, pos); (len + n, end) == Scan(input, old(pos))
      {
        var c := input[pos];
        if c == '"' { break; }
        if c == '\\' {
          pos := pos + 1;
          if pos >= |input| { break; }
        }
        pos := pos + 1;
        len := len + 1;
      }
    }

    /** The second pass: copies len raw characters, replacing escapes. */
    method CopyString(start: nat, len: nat) returns (text: string)
      requires start + len <= |input|
      ensures text == Unescape(input[start..start + len])
    {
      text := "";
      var i := start;
      while i < start + len
        invariant start <= i <= start + len
        invariant text + Unescape(input[i..start + len]) == Unescape(input[start..start + len])
      {
        ghost var before, raw := text, input[i..start + len];
        var c := input[i];
        if c == '\\' && i + 1 < start + len {
          i := i + 1;
          c := input[i];
          text := text + [Escaped(c)];
          assert raw[2..] == input[i + 1..start + len];
          assert before + ([Escaped(c)] + Unescape(raw[2..])) == text + Unescape(raw[2..]);
        } else {
          text := text + [c];
          assert raw[1..] == input[i + 1..start + len];
          assert before + ([c] + Unescape(raw[1..])) == text + Unescape(raw[1..]);
        }
        i := i + 1;
      }
      assert input[i..start + len] == "";
    }

    method ParseString() returns (found: Option<string>)
      requires pos <= |input|
      modifies this`pos
      ensures Agrees(String(input, old(pos)), found)
    {
      hide Scan, Unescape;
      SkipWhitespace();
      if Peek() != '"' { return None; }
      Consume();
      var start := pos;
      var len := ScanString();
      var text := CopyString(start, len);
      Consume();
      return Some(text);
    }

    /** strtod at the position. */
    method ParseNumber() returns (found: Option<real>)
      requires pos <= |input|
      modifies this`pos
      ensures Agrees(Number(input, Skip(input, old(pos))), found)
    {
      hide Number;
      SkipWhitespace();
      var r := Number(input, pos);
      if r.Bad? { return None; }
      pos := r.next;
      return Some(r.value);
    }

    method ParseArray() returns (found: Option<Json>)
      requires pos <= |input|
      modifies this`pos
      ensures var p := Skip(input, old(pos));
        if CharAt(input, p, '[') then Agrees(Value(input, p), found) else found == None && pos <= |input|
      decreases |input| - pos, 0
    {
      hide Items, Members, String, Number, Value, Skip, KeyValue, WordAt;
      ghost var p := Skip(input, pos);
      SkipTwice(input, pos);
      var ok := Expect('[');
      if !ok { return None; }
      ArrayCases(input, p);
      SkipWhitespace();
      if Peek() == ']' {
        Consume();
        return Some(JArray([]));
      }
      var items: seq<Json> := [];
      BehindNothing(Items(input, pos));
      ghost var all := Items(input, pos);
      while true
        invariant p < pos <= |input| && Behind(items, Items(input, pos)) == all
        decreases |input| - pos
      {
        ghost var at := pos;
        var v := ParseValue();
        if v.None? { BadItem(input, at); return None; }
        ItemRead(input, at, items, v.value, pos);
        items := items + [v.value];
        SkipTwice(input, pos);
        SkipWhitespace();
        if Peek() == ']' {
          Consume();
          break;
        }
        ok := Expect(',');
        if !ok { return None; }
      }
      return Some(JArray(items));
    }

    /** One key, its colon and its value. */
    method ParseMember() returns (found: Option<Member>)
      requires pos <= |input|
      modifies this`pos
      ensures Agrees(KeyValue(input, old(pos)), found)
      decreases |input| - pos, 2
    {
      hide String, Value, KeyValue;
      KeyValueCases(input, pos);
      var key := ParseString();
      if key.None? { return None; }
      var ok := Expect(':');
      if !ok { return None; }
      var v := ParseValue();
      return if v.Some? then Some(Member(key.value, v.value)) else None;
    }

    method ParseObject() returns (found: Option<Json>)
      requires pos <= |input|
      modifies this`pos
      ensures var p := Skip(input, old(pos));
        if CharAt(input, p, '{') then Agrees(Value(input, p), found) else found == None && pos <= |input|
      decreases |input| - pos, 0
    {
      hide Items, Members, String, Number, Value, Skip, KeyValue, WordAt;
      ghost var p := Skip(input, pos);
      SkipTwice(input, pos);
      var ok := Expect('{');
      if !ok { return None; }
      ObjectCases(input, p);
      SkipWhitespace();
      if Peek() == '}' {
        Consume();
        return Some(JObject([]));
      }
      var members: seq<Member> := [];
      BehindNothing(Members(input, pos));
      ghost var all := Members(input, pos);
      while true
        invariant p < pos <= |input| && Behind(members, Members(input, pos)) == all
        decreases |input| - pos
      {
        ghost var at := pos;
        var member := ParseMember();
        if member.None? { BadMember(input, at); return None; }
        MemberRead(input, at, members, member.value, pos);
        members := members + [member.value];
        SkipTwice(input, pos);
        SkipWhitespace();
        if Peek() == '}' {
          Consume();
          break;
        }
        ok := Expect(',');
        if !ok { return None; }
      }
      return Some(JObject(members));
    }

    method ParseValue() returns (found: Option<Json>)
      requires pos <= |input|
      modifies this`pos
      ensures Agrees(Value(input, old(pos)), found)
      decreases |input| - pos, 1
    {
      hide Items, Members, String, Number, WordAt;
      SkipTwice(input, pos);
      SkipWhitespace();
      Keywords(input, pos);
      var c := Peek();
      if c == '"' {
        var s := ParseString();
        return if s.Some? then Some(JString(s.value)) else None;
      }
      if c == '[' {
        found := ParseArray();
        return;
      }
      if c == '{' {
        found := ParseObject();
        return;
      }
      if c == 't' {
        if WordAt(input, pos, "true") {
          pos := pos + 4;
          return Some(JBool(true));
        }
      }
      if c == 'f' {
        if WordAt(input, pos, "false") {
          pos := pos + 5;
          return Some(JBool(false));
        }
      }
      if c == 'n' {
        if WordAt(input, pos, "null") {
          pos := pos + 4;
          return Some(JNull);
        }
      }
      if c == '-' || IsDigit(c) {
        var r := ParseNumber();
        return if r.Some? then Some(JNumber(r.value)) else None;
      }
      return None;
    }
  }

  // ---------- Facts the loops use ----------

  lemma {:induction false} SkipTwice(s: string, at: nat)
    requires at <= |s|
    ensures Skip(s, Skip(s, at)) == Skip(s, at)
    decreases |s| - at
  {
    if at < |s| && IsSpace(s[at]) { SkipTwice(s, at + 1); }
  }

  lemma ArrayCases(s: string, p: nat)
    requires CharAt(s, p, '[')
    ensures var q := Skip(s, p + 1);
      Value(s, p) == if CharAt(s, q, ']') then Ok(JArray([]), q + 1)
                     else if Items(s, q).Ok? then Ok(JArray(Items(s, q).value), Items(s, q).next) else Bad
  {
    hide Items, Members, String, Number;
    SkipNothing(s, p);
  }

  lemma ObjectCases(s: string, p: nat)
    requires CharAt(s, p, '{')
    ensures var q := Skip(s, p + 1);
      Value(s, p) == if CharAt(s, q, '}') then Ok(JObject([]), q + 1)
                     else if Members(s, q).Ok? then Ok(JObject(Members(s, q).value), Members(s, q).next) else Bad
  {
    hide Items, Members, String, Number;
    SkipNothing(s, p);
  }

  lemma Keywords(s: string, p: nat)
    ensures WordAt(s, p, "true") ==> CharAt(s, p, 't') && p + 4 <= |s|
    ensures WordAt(s, p, "false") ==> CharAt(s, p, 'f') && p + 5 <= |s|
    ensures WordAt(s, p, "null") ==> CharAt(s, p, 'n') && p + 4 <= |s|
  {
    if WordAt(s, p, "true") { WordChar(s, p, "true", 0); }
    if WordAt(s, p, "false") { WordChar(s, p, "false", 0); }
    if WordAt(s, p, "null") { WordChar(s, p, "null", 0); }
  }

  lemma BadItem(s: string, at: nat)
    requires at <= |s| && Value(s, at).Bad?
    ensures Items(s, at).Bad?
  {
  }

  lemma BadMember(s: string, at: nat)
    requires at <= |s| && KeyValue(s, at).Bad?
    ensures Members(s, at).Bad?
  {
  }

  /** A member takes a key, a colon and a value. */
  lemma KeyValueCases(s: string, at: nat)
    requires at <= |s|
    ensures var k := String(s, at);
      if k.Bad? then KeyValue(s, at).Bad?
      else
        var p := Skip(s, k.next);
        if !CharAt(s, p, ':') then KeyValue(s, at).Bad?
        else if Value(s, p + 1).Bad? then KeyValue(s, at).Bad?
        else KeyValue(s, at) == Ok(Member(k.value, Value(s, p + 1).value), Value(s, p + 1).next)
  {
    hide String, Value;
  }
}
