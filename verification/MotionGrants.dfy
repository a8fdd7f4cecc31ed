/** strands_robots/_motion_grants.py: the identity a human yes is recorded against, and spending it once. */
module MotionGrants {
  import opened Options
  import opened Text

  /** A value of a tool call: `None`, a string, or anything else by its `str()` and its truth. */
  datatype Value = NoneValue | Str(text: string) | Other(text: string, truthy: bool)
  {
    function Shown(): string
    {
      match this
      case NoneValue => "None"
      case Str(text) => text
      case Other(text, _) => text
    }

    predicate Truthy()
    {
      match this
      case NoneValue => false
      case Str(text) => text != ""
      case Other(_, truthy) => truthy
    }
  }

  type Call = map<string, Value>

  const DIRECT_SERIAL_TOOLS: set<string> := {"pose_tool", "serial_tool"}

  const DETAIL_FIELDS: seq<string> :=
    ["pose_name", "motor_name", "motor_id", "positions", "position", "velocity",
      "delta", "steps", "data", "hex_data", "duration"]

  /** `str(call.get(key) or "")`. */
  function TextOr(call: Call, key: string): string
  {
    if key in call && call[key].Truthy() then call[key].Shown() else ""
  }

  /** A motion field the call carries: neither omitted, nor `None`, nor the empty string. */
  predicate Carries(call: Call, field: string)
  {
    field in call && call[field] != NoneValue && call[field] != Str("")
  }

  function FieldsFrom(call: Call, fields: seq<string>): seq<string>
  {
    if |fields| == 0 then []
    else
      (if Carries(call, fields[0]) then [fields[0] + "=" + call[fields[0]].Shown()] else [])
        + FieldsFrom(call, fields[1..])
  }

  /** `field=value` for each motion field the call carries, in roster order. */
  function MotionFields(call: Call): seq<string>
  {
    FieldsFrom(call, DETAIL_FIELDS)
  }

  /** The peer or port a yes would move, from the one source each kind of tool is trusted for. */
  function ResolveTarget(tool: string, call: Call, bound: Option<map<string, Value>>): string
  {
    if bound.Some? && tool in bound.value then Strip(TextOr(bound.value, tool))
    else if tool in DIRECT_SERIAL_TOOLS then Strip(TextOr(call, "port"))
    else Strip(TextOr(call, "target"))
  }

  function Instruction(call: Call): string
  {
    if "instruction" in call && call["instruction"].Truthy() then call["instruction"].Shown()
      else TextOr(call, "message")
  }

  /** What the operator was shown. */
  function Parts(tool: string, call: Call): seq<string>
  {
    [tool, Strip(TextOr(call, "action")), ResolveTarget(tool, call, None), Instruction(call)] + MotionFields(call)
  }

  // Python's `repr` of a string and of a tuple of strings.

  function HexDigit(n: nat): char
    requires n < 16
  {
    "0123456789abcdef"[n]
  }

  function Hex(n: nat, width: nat): (s: string)
    ensures |s| == width
  {
    if width == 0 then "" else Hex(n / 16, width - 1) + [HexDigit(n % 16)]
  }

  function DigitValue(c: char): nat
  {
    if '0' <= c <= '9' then c as nat - '0' as nat
    else if 'a' <= c <= 'f' then c as nat - 'a' as nat + 10
    else 0
  }

  function FromHex(s: string): nat
  {
    if |s| == 0 then 0 else FromHex(s[..|s| - 1]) * 16 + DigitValue(s[|s| - 1])
  }

  function Pow16(width: nat): nat
  {
    if width == 0 then 1 else 16 * Pow16(width - 1)
  }

  lemma DividedDown(n: nat, bound: nat)
    requires n < 16 * bound
    ensures n / 16 < bound && n / 16 * 16 + n % 16 == n
  {
  }

  lemma DigitIsBack(n: nat)
    requires n < 16
    ensures DigitValue(HexDigit(n)) == n
  {
  }

  lemma {:induction false} HexRoundTrip(n: nat, width: nat)
    requires n < Pow16(width)
    ensures FromHex(Hex(n, width)) == n
  {
    hide HexDigit, DigitValue;
    if width > 0 {
      DividedDown(n, Pow16(width - 1));
      DigitIsBack(n % 16);
      HexRoundTrip(n / 16, width - 1);
      var before := Hex(n / 16, width - 1);
      assert Hex(n, width)[..|before|] == before;
    }
  }

  /** One character inside quotes `q`; `printable` stands for Python's table of printable characters. */
  function Escape(c: char, q: char, printable: char -> bool): string
  {
    if c == '\\' then "\\\\"
    else if c == q then ['\\', q]
    else if c == '\t' then "\\t"
    else if c == '\n' then "\\n"
    else if c == '\r' then "\\r"
    else if c < ' ' || c == '\U{7f}' then "\\x" + Hex(c as nat, 2)
    else if c < '\U{7f}' || printable(c) then [c]
    else if c as nat <= 0xff then "\\x" + Hex(c as nat, 2)
    else if c as nat <= 0xffff then "\\u" + Hex(c as nat, 4)
    else "\\U" + Hex(c as nat, 8)
  }

  function EscapeAll(s: string, q: char, printable: char -> bool): string
  {
    if |s| == 0 then "" else Escape(s[0], q, printable) + EscapeAll(s[1..], q, printable)
  }

  /** Single quotes, unless the string holds one and no double quote. */
  function QuoteFor(s: string): char
  {
    if '\'' in s && '"' !in s then '"' else '\''
  }

  function Repr(s: string, printable: char -> bool): string
  {
    [QuoteFor(s)] + EscapeAll(s, QuoteFor(s), printable) + [QuoteFor(s)]
  }

  function ReprItems(parts: seq<string>, printable: char -> bool): string
    requires |parts| > 0
  {
    Repr(parts[0], printable) + if |parts| == 1 then ")" else ", " + ReprItems(parts[1..], printable)
  }

  /** `repr` of a tuple of at least two strings. */
  function ReprTuple(parts: seq<string>, printable: char -> bool): string
    requires |parts| > 1
  {
    "(" + ReprItems(parts, printable)
  }

  // Reading the text back.

  function CharOf(n: nat): Option<char>
  {
    if n < 0xD800 || 0xE000 <= n < 0x11_0000 then Some(n as char) else None
  }

  function ReadHex(s: string, width: nat): Option<(char, string)>
  {
    if |s| < 2 + width then None
    else match CharOf(FromHex(s[2..2 + width]))
      case None => None
      case Some(c) => Some((c, s[2 + width..]))
  }

  /** The first character written in `s`, and the text after it. */
  function ReadChar(s: string): (r: Option<(char, string)>)
    ensures r.Some? ==> |r.value.1| < |s|
  {
    if |s| == 0 then None
    else if s[0] != '\\' then Some((s[0], s[1..]))
    else if |s| == 1 then None
    else if s[1] == 't' then Some(('\t', s[2..]))
    else if s[1] == 'n' then Some(('\n', s[2..]))
    else if s[1] == 'r' then Some(('\r', s[2..]))
    else if s[1] == 'x' then ReadHex(s, 2)
    else if s[1] == 'u' then ReadHex(s, 4)
    else if s[1] == 'U' then ReadHex(s, 8)
    else Some((s[1], s[2..]))
  }

  function ReadBody(s: string, q: char): Option<(string, string)>
    decreases |s|
  {
    if |s| == 0 then None
    else if s[0] == q then Some(("", s[1..]))
    else match ReadChar(s)
      case None => None
      case Some((c, rest)) =>
        match ReadBody(rest, q)
        case None => None
        case Some((text, after)) => Some(([c] + text, after))
  }

  lemma ReadHexBack(c: char, mark: char, width: nat, rest: string)
    requires width == 2 || width == 4 || width == 8
    requires c as nat < Pow16(width)
    ensures ReadHex(['\\', mark] + Hex(c as nat, width) + rest, width) == Some((c, rest))
  {
    var s := ['\\', mark] + Hex(c as nat, width) + rest;
    HexRoundTrip(c as nat, width);
    assert s[2..2 + width] == Hex(c as nat, width) && s[2 + width..] == rest;
  }

  lemma Pow16Values()
    ensures Pow16(2) == 0x100 && Pow16(4) == 0x1_0000 && Pow16(8) == 0x1_0000_0000
  {
    assert Pow16(3) == 0x1000 && Pow16(5) == 0x10_0000 && Pow16(6) == 0x100_0000 && Pow16(7) == 0x1000_0000;
  }

  /** An escaped character reads back, and never starts like the closing quote. */
  lemma EscapeReadsBack(c: char, q: char, printable: char -> bool, rest: string)
    requires q == '\'' || q == '"'
    ensures |Escape(c, q, printable)| > 0 && Escape(c, q, printable)[0] != q
    ensures ReadChar(Escape(c, q, printable) + rest) == Some((c, rest))
  {
    var e := Escape(c, q, printable);
    var s := e + rest;
    Pow16Values();
    if |e| == 1 {
      assert s[1..] == rest;
    } else if |e| == 2 {
      assert s[2..] == rest;
    } else if |e| == 4 {
      ReadHexBack(c, 'x', 2, rest);
      assert s == ['\\', 'x'] + Hex(c as nat, 2) + rest;
    } else if |e| == 6 {
      ReadHexBack(c, 'u', 4, rest);
      assert s == ['\\', 'u'] + Hex(c as nat, 4) + rest;
    } else {
      ReadHexBack(c, 'U', 8, rest);
      assert s == ['\\', 'U'] + Hex(c as nat, 8) + rest;
    }
  }

  lemma ReadOneMore(s: string, q: char, c: char, later: string, text: string, after: string)
    requires |s| > 0 && s[0] != q && ReadChar(s) == Some((c, later)) && ReadBody(later, q) == Some((text, after))
    ensures ReadBody(s, q) == Some(([c] + text, after))
  {
  }

  lemma {:induction false} BodyReadsBack(s: string, q: char, printable: char -> bool, rest: string)
    requires q == '\'' || q == '"'
    ensures ReadBody(EscapeAll(s, q, printable) + [q] + rest, q) == Some((s, rest))
  {
    if |s| == 0 {
      assert EscapeAll(s, q, printable) + [q] + rest == [q] + rest;
      assert ([q] + rest)[1..] == rest;
    } else {
      var first, later := Escape(s[0], q, printable), EscapeAll(s[1..], q, printable) + [q] + rest;
      EscapeReadsBack(s[0], q, printable, later);
      assert EscapeAll(s, q, printable) + [q] + rest == first + later;
      assert s == [s[0]] + s[1..];
      hide Escape, EscapeAll, ReadChar, ReadBody;
      BodyReadsBack(s[1..], q, printable, rest);
      ReadOneMore(first + later, q, s[0], later, s[1..], rest);
    }
  }

  /** A string's `repr` followed by anything determines the string and what follows. */
  lemma ReprIsPrefixFree(s: string, t: string, printable: char -> bool, after: string, after': string)
    requires Repr(s, printable) + after == Repr(t, printable) + after'
    ensures s == t && after == after'
  {
    hide EscapeAll, ReadBody;
    var q, q' := QuoteFor(s), QuoteFor(t);
    var whole := Repr(s, printable) + after;
    assert whole[0] == q && whole[0] == q';
    BodyReadsBack(s, q, printable, after);
    BodyReadsBack(t, q, printable, after');
    assert whole[1..] == EscapeAll(s, q, printable) + [q] + after;
    assert whole[1..] == EscapeAll(t, q, printable) + [q] + after';
  }

  lemma {:induction false} ItemsAreInjective(s: seq<string>, t: seq<string>, printable: char -> bool)
    requires |s| > 0 && |t| > 0 && ReprItems(s, printable) == ReprItems(t, printable)
    ensures s == t
  {
    var after := if |s| == 1 then ")" else ", " + ReprItems(s[1..], printable);
    var after' := if |t| == 1 then ")" else ", " + ReprItems(t[1..], printable);
    ReprIsPrefixFree(s[0], t[0], printable, after, after');
    assert after[0] == after'[0];
    if |s| > 1 {
      assert after[2..] == ReprItems(s[1..], printable) && after'[2..] == ReprItems(t[1..], printable);
      ItemsAreInjective(s[1..], t[1..], printable);
      assert s == [s[0]] + s[1..] && t == [t[0]] + t[1..];
    }
  }

  // The key.

  function GrantKey(tool: string, call: Call, printable: char -> bool): string
  {
    ReprTuple(Parts(tool, call), printable)
  }

  /** A motion field's shown value, if the call carries it. */
  function Field(call: Call, field: string): Option<string>
  {
    if Carries(call, field) then Some(call[field].Shown()) else None
  }

  /** Roster names: distinct, and none holds the character that ends a name. */
  ghost predicate IsRoster(fields: seq<string>)
  {
    && (forall i :: 0 <= i < |fields| ==> '=' !in fields[i])
    && (forall i, j :: 0 <= i < j < |fields| ==> fields[i] != fields[j])
  }

  /** The text up to the first `=`. */
  function Before(s: string): string
  {
    if |s| == 0 || s[0] == '=' then "" else [s[0]] + Before(s[1..])
  }

  lemma {:induction false} BeforeEquals(f: string, v: string)
    requires '=' !in f
    ensures Before(f + "=" + v) == f
  {
    if |f| > 0 {
      BeforeEquals(f[1..], v);
      assert (f + "=" + v)[1..] == f[1..] + "=" + v;
      assert f == [f[0]] + f[1..];
    }
  }

  lemma NameBeforeEquals(f: string, v: string, g: string, w: string)
    requires '=' !in f && '=' !in g && f + "=" + v == g + "=" + w
    ensures f == g && v == w
  {
    BeforeEquals(f, v);
    BeforeEquals(g, w);
    assert (f + "=" + v)[|f| + 1..] == v && (g + "=" + w)[|g| + 1..] == w;
  }

  /** The first entry of a field list is written by some roster field. */
  lemma {:induction false} FirstEntry(call: Call, fields: seq<string>) returns (i: nat)
    requires |FieldsFrom(call, fields)| > 0
    ensures i < |fields| && Carries(call, fields[i])
      && FieldsFrom(call, fields)[0] == fields[i] + "=" + call[fields[i]].Shown()
  {
    if Carries(call, fields[0]) {
      i := 0;
    } else {
      var j := FirstEntry(call, fields[1..]);
      i := j + 1;
    }
  }

  lemma OneSidedField(a: Call, b: Call, fields: seq<string>)
    requires IsRoster(fields) && |fields| > 0 && Carries(a, fields[0]) && !Carries(b, fields[0])
    ensures FieldsFrom(a, fields) != FieldsFrom(b, fields)
  {
    if |FieldsFrom(b, fields)| > 0 {
      var i := FirstEntry(b, fields);
      if FieldsFrom(a, fields)[0] == FieldsFrom(b, fields)[0] {
        NameBeforeEquals(fields[0], a[fields[0]].Shown(), fields[i], b[fields[i]].Shown());
      }
    }
  }

  lemma {:induction false} FieldsAreInjective(a: Call, b: Call, fields: seq<string>)
    requires IsRoster(fields)
    ensures FieldsFrom(a, fields) == FieldsFrom(b, fields)
      <==> forall i :: 0 <= i < |fields| ==> Field(a, fields[i]) == Field(b, fields[i])
  {
    if |fields| > 0 {
      var rest := fields[1..];
      FieldsAreInjective(a, b, rest);
      assert forall i :: 0 <= i < |rest| ==> rest[i] == fields[i + 1];
      if Carries(a, fields[0]) && !Carries(b, fields[0]) {
        OneSidedField(a, b, fields);
      } else if !Carries(a, fields[0]) && Carries(b, fields[0]) {
        OneSidedField(b, a, fields);
      } else if Carries(a, fields[0]) {
        SameHead(fields[0], a[fields[0]].Shown(), b[fields[0]].Shown(), FieldsFrom(a, rest), FieldsFrom(b, rest));
      } else {
        assert FieldsFrom(a, fields) == FieldsFrom(a, rest) && FieldsFrom(b, fields) == FieldsFrom(b, rest);
      }
    }
  }

  lemma SameHead(f: string, v: string, w: string, rest: seq<string>, rest': seq<string>)
    requires '=' !in f
    ensures [f + "=" + v] + rest == [f + "=" + w] + rest' <==> v == w && rest == rest'
  {
    var s, t := [f + "=" + v] + rest, [f + "=" + w] + rest';
    if s == t {
      assert s[0] == t[0] && s[1..] == rest && t[1..] == rest';
      NameBeforeEquals(f, v, f, w);
    }
  }

  // The key, told from the calls themselves.

  /** The call holds something that counts as true under `key`. */
  predicate Speaks(call: Call, key: string)
  {
    key in call && call[key] != NoneValue && (if call[key].Str? then |call[key].text| > 0 else call[key].truthy)
  }

  predicate SameText(call: Call, key: string, call': Call, key': string)
  {
    if Speaks(call, key) && Speaks(call', key') then call[key].text == call'[key'].text
    else (Speaks(call, key) ==> call[key].text == "") && (Speaks(call', key') ==> call'[key'].text == "")
  }

  /** The same text but for white ends. */
  predicate SameBut(call: Call, call': Call, key: string)
  {
    Strip(if Speaks(call, key) then call[key].text else "")
    == Strip(if Speaks(call', key) then call'[key].text else "")
  }

  predicate Silent(call: Call, field: string)
  {
    field !in call || call[field].NoneValue? || (call[field].Str? && |call[field].text| == 0)
  }

  /** Both calls leave a motion field out, or both give it with the same text. */
  predicate SameField(call: Call, call': Call, field: string)
  {
    (Silent(call, field) <==> Silent(call', field)) && (!Silent(call, field) ==> call[field].text == call'[field].text)
  }

  /** Two calls share a key exactly when the operator was shown the same: the tool and, up to white ends, the action and
      the port of a serial tool or the target of any other; the instruction, or where a call has none its message; and
      each motion field. */
  lemma KeysAgreeIff(tool: string, call: Call, tool': string, call': Call, printable: char -> bool)
    ensures GrantKey(tool, call, printable) == GrantKey(tool', call', printable) <==>
      && tool == tool'
      && SameBut(call, call', "action")
      && SameBut(call, call', if tool == "pose_tool" || tool == "serial_tool" then "port" else "target")
      && SameText(call, if Speaks(call, "instruction") then "instruction" else "message",
           call', if Speaks(call', "instruction") then "instruction" else "message")
      && SameField(call, call', "pose_name") && SameField(call, call', "motor_name")
      && SameField(call, call', "motor_id") && SameField(call, call', "positions")
      && SameField(call, call', "position") && SameField(call, call', "velocity")
      && SameField(call, call', "delta") && SameField(call, call', "steps")
      && SameField(call, call', "data") && SameField(call, call', "hex_data")
      && SameField(call, call', "duration")
  {
    PartsAgreeIff(tool, call, tool', call', printable);
    TextsAgreeIff(call, call', "action");
    TextsAgreeIff(call, call', "port");
    TextsAgreeIff(call, call', "target");
    InstructionsAgreeIff(call, call');
    FieldsAgreeIff(call, call');
    hide SameField, SameBut, SameText, TextOr, Speaks, Instruction, Strip, Field, GrantKey;
  }

  lemma TextsAgreeIff(call: Call, call': Call, key: string)
    ensures Strip(TextOr(call, key)) == Strip(TextOr(call', key)) <==> SameBut(call, call', key)
  {
    hide Strip;
  }

  lemma InstructionsAgreeIff(call: Call, call': Call)
    ensures Instruction(call) == Instruction(call') <==>
      SameText(call, if Speaks(call, "instruction") then "instruction" else "message",
        call', if Speaks(call', "instruction") then "instruction" else "message")
  {
  }

  lemma Roster()
    ensures |DETAIL_FIELDS| == 11
    ensures DETAIL_FIELDS[0] == "pose_name"
    ensures DETAIL_FIELDS[1] == "motor_name"
    ensures DETAIL_FIELDS[2] == "motor_id"
    ensures DETAIL_FIELDS[3] == "positions"
    ensures DETAIL_FIELDS[4] == "position"
    ensures DETAIL_FIELDS[5] == "velocity"
    ensures DETAIL_FIELDS[6] == "delta"
    ensures DETAIL_FIELDS[7] == "steps"
    ensures DETAIL_FIELDS[8] == "data"
    ensures DETAIL_FIELDS[9] == "hex_data"
    ensures DETAIL_FIELDS[10] == "duration"
  {
  }

  lemma FieldsAgreeIff(call: Call, call': Call)
    ensures (forall i :: 0 <= i < |DETAIL_FIELDS| ==> Field(call, DETAIL_FIELDS[i]) == Field(call', DETAIL_FIELDS[i]))
      <==>
      && SameField(call, call', "pose_name") && SameField(call, call', "motor_name")
      && SameField(call, call', "motor_id") && SameField(call, call', "positions")
      && SameField(call, call', "position") && SameField(call, call', "velocity")
      && SameField(call, call', "delta") && SameField(call, call', "steps")
      && SameField(call, call', "data") && SameField(call, call', "hex_data")
      && SameField(call, call', "duration")
  {
    forall field ensures Field(call, field) == Field(call', field) <==> SameField(call, call', field) {
    }
    Roster();
    hide Field, SameField, DETAIL_FIELDS;
  }

  lemma PartsAgreeIff(tool: string, call: Call, tool': string, call': Call, printable: char -> bool)
    ensures GrantKey(tool, call, printable) == GrantKey(tool', call', printable) <==>
      && tool == tool'
      && Strip(TextOr(call, "action")) == Strip(TextOr(call', "action"))
      && ResolveTarget(tool, call, None) == ResolveTarget(tool', call', None)
      && Instruction(call) == Instruction(call')
      && forall i :: 0 <= i < |DETAIL_FIELDS| ==> Field(call, DETAIL_FIELDS[i]) == Field(call', DETAIL_FIELDS[i])
  {
    hide Strip, TextOr, ResolveTarget, Instruction, ReprItems, FieldsFrom, Carries;
    var p, p' := Parts(tool, call), Parts(tool', call');
    FieldsAreInjective(call, call', DETAIL_FIELDS);
    assert p[4..] == MotionFields(call) && p'[4..] == MotionFields(call');
    assert p == p[..4] + p[4..] && p' == p'[..4] + p'[4..];
    if GrantKey(tool, call, printable) == GrantKey(tool', call', printable) {
      assert ReprTuple(p, printable)[1..] == ReprItems(p, printable);
      assert ReprTuple(p', printable)[1..] == ReprItems(p', printable);
      ItemsAreInjective(p, p', printable);
    }
  }

  /** A bound tool moves the peer it is bound to, whatever the call says. Without a binding two calls of one tool move
      the same robot exactly when their ports agree, for a serial tool, or their targets, for any other. */
  lemma TargetIsTrusted(tool: string, call: Call, call': Call, bound: Option<map<string, Value>>)
    ensures var target, target' := ResolveTarget(tool, call, bound), ResolveTarget(tool, call', bound);
      if bound.Some? && tool in bound.value
      then target == target' == Strip(if Speaks(bound.value, tool) then bound.value[tool].text else "")
      else target == target' <==>
        SameBut(call, call', if tool == "pose_tool" || tool == "serial_tool" then "port" else "target")
  {
    TextsAgreeIff(call, call', "port");
    TextsAgreeIff(call, call', "target");
    hide Strip;
  }

  // Spending a grant once.

  datatype Op = Deposit(key: string) | Consume(key: string)

  /** The grants held after a trace. */
  function Held(ops: seq<Op>): set<string>
  {
    if |ops| == 0 then {}
    else
      var held := Held(ops[..|ops| - 1]);
      match ops[|ops| - 1]
      case Deposit(key) => held + {key}
      case Consume(key) => held - {key}
  }

  /** Step `i` of the trace is a consume that is told yes. */
  predicate Succeeds(ops: seq<Op>, i: nat)
    requires i < |ops|
  {
    ops[i].Consume? && ops[i].key in Held(ops[..i])
  }

  /** The grants set of the process, with the trace that led to it. */
  class GrantStore {
    var grants: set<string>
    ghost var trace: seq<Op>

    ghost predicate Valid()
      reads this
    {
      grants == Held(trace)
    }

    constructor ()
      ensures Valid() && trace == []
    {
      grants := {};
      trace := [];
    }

    method DepositGrant(tool: string, call: Call, printable: char -> bool)
      requires Valid()
      modifies this
      ensures Valid() && trace == old(trace) + [Deposit(GrantKey(tool, call, printable))]
    {
      var key := GrantKey(tool, call, printable);
      grants := grants + {key};
      trace := trace + [Deposit(key)];
    }

    method ConsumeGrant(tool: string, call: Call, printable: char -> bool) returns (granted: bool)
      requires Valid()
      modifies this
      ensures Valid() && trace == old(trace) + [Consume(GrantKey(tool, call, printable))]
      ensures granted <==> Succeeds(trace, |old(trace)|)
    {
      var key := GrantKey(tool, call, printable);
      granted := key in grants;
      if granted {
        grants := grants - {key};
      }
      trace := trace + [Consume(key)];
      assert trace[..|old(trace)|] == old(trace);
    }
  }

  /** The last step of the trace on `key` is a deposit. */
  predicate LastIsDeposit(ops: seq<Op>, key: string)
  {
    exists i :: 0 <= i < |ops| && ops[i] == Deposit(key) && forall j :: i < j < |ops| ==> ops[j] != Consume(key)
  }

  /** Only the steps on one key decide whether it is held. */
  lemma {:induction false} HeldIff(ops: seq<Op>, key: string)
    ensures key in Held(ops) <==> LastIsDeposit(ops, key)
  {
    if |ops| > 0 {
      var init, last := ops[..|ops| - 1], ops[|ops| - 1];
      HeldIff(init, key);
      if LastIsDeposit(init, key) && last != Consume(key) {
        var i :| 0 <= i < |init| && init[i] == Deposit(key) && forall j :: i < j < |init| ==> init[j] != Consume(key);
        assert ops[i] == Deposit(key) && forall j :: i < j < |ops| ==> ops[j] != Consume(key);
      }
      if LastIsDeposit(ops, key) && last != Deposit(key) {
        var i :| 0 <= i < |ops| && ops[i] == Deposit(key) && forall j :: i < j < |ops| ==> ops[j] != Consume(key);
        assert init[i] == Deposit(key) && forall j :: i < j < |init| ==> init[j] != Consume(key);
      }
      if last == Deposit(key) {
        assert ops[|ops| - 1] == Deposit(key);
      }
    }
  }

  /** Between two consumes of one key that are told yes there is a deposit of that key. */
  lemma DepositBetween(ops: seq<Op>, i: nat, j: nat)
    requires i < j < |ops| && Succeeds(ops, i) && Succeeds(ops, j) && ops[i].key == ops[j].key
    ensures exists k :: i < k < j && ops[k] == Deposit(ops[j].key)
  {
    var key := ops[j].key;
    HeldIff(ops[..j], key);
    var k :| 0 <= k < j && ops[..j][k] == Deposit(key) && forall m :: k < m < j ==> ops[..j][m] != Consume(key);
    assert ops[..j][i] == Consume(key);
  }

  function Deposits(ops: seq<Op>, key: string): nat
  {
    if |ops| == 0 then 0 else Deposits(ops[..|ops| - 1], key) + if ops[|ops| - 1] == Deposit(key) then 1 else 0
  }

  function Successes(ops: seq<Op>, key: string): nat
  {
    if |ops| == 0 then 0
    else Successes(ops[..|ops| - 1], key) + if ops[|ops| - 1].key == key && Succeeds(ops, |ops| - 1) then 1 else 0
  }

  /** How often a key was granted while a grant of it was still held. */
  function Repeats(ops: seq<Op>, key: string): nat
  {
    if |ops| == 0 then 0
    else
      var init, last := ops[..|ops| - 1], ops[|ops| - 1];
      Repeats(init, key) + if last == Deposit(key) && key in Held(init) then 1 else 0
  }

  /** Over every trace, each deposit of a key is spent, or still held, or fell on one still held; so a key is spent at
      most as often as it was granted. */
  lemma {:induction false} SpentAtMostGranted(ops: seq<Op>, key: string)
    ensures Deposits(ops, key) == Successes(ops, key) + Repeats(ops, key) + if key in Held(ops) then 1 else 0
    ensures Successes(ops, key) <= Deposits(ops, key)
  {
    if |ops| > 0 {
      SpentAtMostGranted(ops[..|ops| - 1], key);
    }
  }

  /** The steps of a trace on one key. */
  function Only(ops: seq<Op>, key: string): seq<Op>
  {
    if |ops| == 0 then []
    else Only(ops[..|ops| - 1], key) + if ops[|ops| - 1].key == key then [ops[|ops| - 1]] else []
  }

  /** Steps on other keys change nothing for this one: holding it, and spending it, go as if they had not been. */
  lemma {:induction false} OtherKeysDoNotMatter(ops: seq<Op>, key: string)
    ensures key in Held(ops) <==> key in Held(Only(ops, key))
    ensures Successes(ops, key) == Successes(Only(ops, key), key)
  {
    if |ops| > 0 {
      var init, last := ops[..|ops| - 1], ops[|ops| - 1];
      OtherKeysDoNotMatter(init, key);
      if last.key == key {
        assert Only(ops, key)[..|Only(ops, key)| - 1] == Only(init, key);
      } else {
        assert Only(ops, key) == Only(init, key);
      }
    }
  }
}
