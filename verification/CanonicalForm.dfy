/**
 src/AtlasGT.Infrastructure/SignedAuditEntry.cs: the text an audit entry is hashed over. It is
 unambiguous: two entries with the same canonical form agree in every field.
 */
module CanonicalForm {
  import opened Results

  /** An instant, and its round-trip ("O") rendering. */
  datatype Timestamp = Timestamp(utcTicks: int, rendered: string)

  /** The hashed fields but the link; `id` is the rendered Guid, `severity` the enum's number. */
  datatype Content =
    Content(
      id: string,
      at: Timestamp,
      actor: Option<string>,
      action: Option<string>,
      targetId: Option<string>,
      detail: Option<string>,
      correlationId: Option<string>,
      succeeded: bool,
      errorMessage: Option<string>,
      sourceIp: Option<string>,
      userAgent: Option<string>,
      severity: int,
      payloadBefore: Option<string>,
      payloadAfter: Option<string>)

  // ---------- escaping ----------

  /** `s.Replace(c, with)` for a single character c. */
  function Replace(s: string, c: char, with: string): string {
    if s == "" then "" else (if s[0] == c then with else [s[0]]) + Replace(s[1..], c, with)
  }

  /** The three passes of `AppendField`, in its order. */
  function EscapePasses(s: string): string {
    Replace(Replace(Replace(s, '\\', "\\\\"), '\n', "\\n"), '\r', "\\r")
  }

  function EscapeChar(c: char): (e: string)
    ensures e != ""
  {
    if c == '\\' then "\\\\" else if c == '\n' then "\\n" else if c == '\r' then "\\r" else [c]
  }

  function Escape(s: string): string {
    if s == "" then "" else EscapeChar(s[0]) + Escape(s[1..])
  }

  function Unescape(s: string): Option<string> {
    if s == "" then Some("")
    else if s[0] != '\\' then
      var rest := Unescape(s[1..]);
      if rest.None? then None else Some([s[0]] + rest.value)
    else if |s| == 1 || s[1] !in "\\nr" then None
    else
      var rest := Unescape(s[2..]);
      var c := if s[1] == 'n' then '\n' else if s[1] == 'r' then '\r' else '\\';
      if rest.None? then None else Some([c] + rest.value)
  }

  lemma {:induction false} ReplaceAppend(a: string, b: string, c: char, with: string)
    ensures Replace(a + b, c, with) == Replace(a, c, with) + Replace(b, c, with)
  {
    if a == "" {
      assert a + b == b;
    } else {
      assert (a + b)[1..] == a[1..] + b;
      ReplaceAppend(a[1..], b, c, with);
      var head := if a[0] == c then with else [a[0]];
      assert head + (Replace(a[1..], c, with) + Replace(b, c, with))
          == (head + Replace(a[1..], c, with)) + Replace(b, c, with);
    }
  }

  lemma ReplaceOne(d: char, c: char, with: string)
    ensures Replace([d], c, with) == if d == c then with else [d]
  {
    assert Replace("", c, with) == "";
  }

  lemma ReplaceTwo(d: char, e: char, c: char, with: string)
    requires d != c && e != c
    ensures Replace([d, e], c, with) == [d, e]
  {
    assert [d, e][1..] == [e];
    ReplaceOne(e, c, with);
  }

  lemma EscapeOne(c: char)
    ensures EscapePasses([c]) == EscapeChar(c)
  {
    ReplaceOne(c, '\\', "\\\\");
    if c == '\\' {
      ReplaceTwo('\\', '\\', '\n', "\\n");
      ReplaceTwo('\\', '\\', '\r', "\\r");
    } else {
      ReplaceOne(c, '\n', "\\n");
      if c == '\n' {
        ReplaceTwo('\\', 'n', '\r', "\\r");
      } else {
        ReplaceOne(c, '\r', "\\r");
      }
    }
  }

  lemma EscapePassesAppend(a: string, b: string)
    ensures EscapePasses(a + b) == EscapePasses(a) + EscapePasses(b)
  {
    ReplaceAppend(a, b, '\\', "\\\\");
    var a1, b1 := Replace(a, '\\', "\\\\"), Replace(b, '\\', "\\\\");
    ReplaceAppend(a1, b1, '\n', "\\n");
    ReplaceAppend(Replace(a1, '\n', "\\n"), Replace(b1, '\n', "\\n"), '\r', "\\r");
  }

  /** The three replacement passes do the work of one pass over the characters. */
  lemma {:induction false} PassesAreOneEscape(s: string)
    ensures EscapePasses(s) == Escape(s)
  {
    if s != "" {
      assert s == [s[0]] + s[1..];
      EscapePassesAppend([s[0]], s[1..]);
      EscapeOne(s[0]);
      PassesAreOneEscape(s[1..]);
    }
  }

  lemma UnescapeStep(c: char, rest: string)
    ensures Unescape(EscapeChar(c) + rest) == match Unescape(rest)
                                              case None => None
                                              case Some(r) => Some([c] + r)
  {
    var e := EscapeChar(c);
    if |e| == 1 {
      assert (e + rest)[1..] == rest;
    } else {
      assert (e + rest)[2..] == rest;
    }
  }

  /** Escaping loses nothing. */
  lemma {:induction false} UnescapeEscape(s: string)
    ensures Unescape(Escape(s)) == Some(s)
  {
    if s != "" {
      UnescapeEscape(s[1..]);
      UnescapeStep(s[0], Escape(s[1..]));
      assert s == [s[0]] + s[1..];
    }
  }

  lemma {:induction false} EscapedHasNoLineBreak(s: string)
    ensures '\n' !in Escape(s) && '\r' !in Escape(s)
  {
    if s != "" {
      EscapedHasNoLineBreak(s[1..]);
    }
  }

  // ---------- decimal numbers ----------

  function Digits(n: nat): (s: string)
    ensures s != ""
  {
    if n < 10 then [(n + 48) as char] else Digits(n / 10) + [(n % 10 + 48) as char]
  }

  function Decimal(n: int): string {
    if n < 0 then "-" + Digits(-n) else Digits(n)
  }

  lemma {:induction false} DigitsInjective(m: nat, n: nat)
    requires Digits(m) == Digits(n)
    ensures m == n
  {
    var s, t := Digits(m), Digits(n);
    assert s[|s| - 1] == (m % 10 + 48) as char && t[|t| - 1] == (n % 10 + 48) as char;
    if m >= 10 && n >= 10 {
      assert Digits(m / 10) == s[..|s| - 1] == Digits(n / 10);
      DigitsInjective(m / 10, n / 10);
    }
  }

  lemma {:induction false} DigitsNotMinus(n: nat)
    ensures Digits(n)[0] != '-'
  {
    if n >= 10 {
      DigitsNotMinus(n / 10);
    }
  }

  lemma DecimalInjective(m: int, n: int)
    requires Decimal(m) == Decimal(n)
    ensures m == n
  {
    DigitsNotMinus(if m < 0 then -m else m);
    DigitsNotMinus(if n < 0 then -n else n);
    if m < 0 {
      assert Digits(-m) == Decimal(m)[1..] == Decimal(n)[1..];
      DigitsInjective(-m, -n);
    } else {
      DigitsInjective(m, n);
    }
  }

  /** The number that decimal digits stand for. */
  function DecimalValue(s: string): int {
    if s == "" then 0 else 10 * DecimalValue(s[..|s| - 1]) + (s[|s| - 1] as int - '0' as int)
  }

  /** The decimal text of a number: digits that stand for it, the first of them not a needless zero. */
  lemma {:induction false} DigitsRead(n: nat)
    ensures DecimalValue(Digits(n)) == n
    ensures forall d :: d in Digits(n) ==> '0' <= d <= '9'
    ensures n > 0 ==> Digits(n)[0] != '0'
  {
    if n >= 10 {
      DigitsRead(n / 10);
    } else {
      assert Digits(n)[..0] == "";
    }
  }

  // ---------- the form ----------

  const KEYS: seq<string> :=
    ["id", "at", "actor", "action", "target", "detail", "corr", "ok", "err", "ip", "ua", "sev", "before", "after",
     "prev"]

  function OrEmpty(s: Option<string>): string {
    if s.Some? then s.value else ""
  }

  /** The fifteen hashed values as text, null as the empty text. */
  function Values(c: Content, prevHash: string): (values: seq<string>)
    ensures |values| == |KEYS|
  {
    [c.id, c.at.rendered, OrEmpty(c.actor), OrEmpty(c.action), OrEmpty(c.targetId), OrEmpty(c.detail),
     OrEmpty(c.correlationId),
     if c.succeeded then "1" else "0", OrEmpty(c.errorMessage), OrEmpty(c.sourceIp), OrEmpty(c.userAgent),
     Decimal(c.severity), OrEmpty(c.payloadBefore), OrEmpty(c.payloadAfter), prevHash]
  }

  /** Actor and action are declared non-null, but a line of the log can still hold null for them. */
  predicate Complete(c: Content) {
    c.actor.Some? && c.action.Some?
  }

  function Line(key: string, value: string): string {
    key + "=" + Escape(value) + "\n"
  }

  function Lines(keys: seq<string>, values: seq<string>): string
    requires |keys| == |values|
  {
    if keys == [] then "" else Line(keys[0], values[0]) + Lines(keys[1..], values[1..])
  }

  function Canonical(c: Content, prevHash: string): string {
    Lines(KEYS, Values(c, prevHash))
  }

  method AppendField(sb: string, key: string, value: string) returns (r: string)
    ensures r == sb + Line(key, value)
  {
    r := sb + key + "=";
    var escaped := EscapePasses(value);
    PassesAreOneEscape(value);
    r := r + escaped + "\n";
    assert r == sb + Line(key, value);
  }

  method AppendFields(keys: seq<string>, values: seq<string>) returns (sb: string)
    requires |keys| == |values|
    ensures sb == Lines(keys, values)
  {
    sb := "";
    for i := 0 to |keys|
      invariant sb + Lines(keys[i..], values[i..]) == Lines(keys, values)
    {
      LinesStep(sb, keys, values, i);
      sb := AppendField(sb, keys[i], values[i]);
    }
  }

  lemma LinesStep(sb: string, keys: seq<string>, values: seq<string>, i: nat)
    requires |keys| == |values| && i < |keys|
    ensures sb + Lines(keys[i..], values[i..]) == sb + Line(keys[i], values[i]) + Lines(keys[i + 1..], values[i + 1..])
  {
    assert keys[i..][1..] == keys[i + 1..] && values[i..][1..] == values[i + 1..];
  }

  /**
   The fifteen `AppendField` calls, in order. Escaping a null actor or action throws; the other fields are
   null-safe.
   */
  method BuildCanonicalForm(c: Content, prevHash: string) returns (r: Result<string>)
    ensures r == if Complete(c) then Ok(Canonical(c, prevHash)) else Err(NullReference)
    ensures r == Err(NullReference) <==> c.actor == None || c.action == None
  {
    if c.actor.None? || c.action.None? {
      return Err(NullReference);
    }
    var sb := AppendFields(KEYS, Values(c, prevHash));
    r := Ok(sb);
  }

  // ---------- the form is unambiguous ----------

  lemma FirstLine(a: string, b: string, x: string, y: string)
    requires '\n' !in a && '\n' !in b
    requires a + "\n" + x == b + "\n" + y
    ensures a == b && x == y
  {
    var s := a + "\n" + x;
    assert s[|a|] == '\n' && s[..|a|] == a;
    assert s == b + "\n" + y && s[|b|] == '\n' && s[..|b|] == b;
    assert forall k :: 0 <= k < |a| ==> s[k] == a[k];
    assert forall k :: 0 <= k < |b| ==> s[k] == b[k];
    assert |a| == |b|;
    assert x == s[|a| + 1..] && y == s[|b| + 1..];
  }

  lemma LineInjective(key: string, v: string, w: string, x: string, y: string)
    requires '\n' !in key
    requires Line(key, v) + x == Line(key, w) + y
    ensures v == w && x == y
  {
    EscapedHasNoLineBreak(v);
    EscapedHasNoLineBreak(w);
    var a, b := key + "=" + Escape(v), key + "=" + Escape(w);
    FirstLine(a, b, x, y);
    assert Escape(v) == a[|key| + 1..] && Escape(w) == b[|key| + 1..];
    UnescapeEscape(v);
    UnescapeEscape(w);
  }

  lemma {:induction false} LinesInjective(keys: seq<string>, v: seq<string>, w: seq<string>)
    requires |keys| == |v| == |w|
    requires forall k :: k in keys ==> '\n' !in k
    requires Lines(keys, v) == Lines(keys, w)
    ensures v == w
  {
    if keys != [] {
      LineInjective(keys[0], v[0], w[0], Lines(keys[1..], v[1..]), Lines(keys[1..], w[1..]));
      LinesInjective(keys[1..], v[1..], w[1..]);
      assert v == [v[0]] + v[1..] && w == [w[0]] + w[1..];
    }
  }

  lemma KeysHaveNoLineBreak()
    ensures forall k :: k in KEYS ==> '\n' !in k
  {
  }

  lemma FormInjective(v: seq<string>, w: seq<string>)
    requires |v| == |w| == |KEYS| && Lines(KEYS, v) == Lines(KEYS, w)
    ensures v == w
  {
    KeysHaveNoLineBreak();
    LinesInjective(KEYS, v, w);
  }

  /** The contents agree in every hashed field, null being the same as the empty text. */
  predicate SameContent(c: Content, d: Content) {
    && c.id == d.id && c.at.rendered == d.at.rendered
    && OrEmpty(c.actor) == OrEmpty(d.actor) && OrEmpty(c.action) == OrEmpty(d.action)
    && OrEmpty(c.targetId) == OrEmpty(d.targetId) && OrEmpty(c.detail) == OrEmpty(d.detail)
    && OrEmpty(c.correlationId) == OrEmpty(d.correlationId) && c.succeeded == d.succeeded
    && OrEmpty(c.errorMessage) == OrEmpty(d.errorMessage) && OrEmpty(c.sourceIp) == OrEmpty(d.sourceIp)
    && OrEmpty(c.userAgent) == OrEmpty(d.userAgent) && c.severity == d.severity
    && OrEmpty(c.payloadBefore) == OrEmpty(d.payloadBefore) && OrEmpty(c.payloadAfter) == OrEmpty(d.payloadAfter)
  }

  /** Equal canonical forms mean equal fields, and equal fields mean equal forms. */
  lemma CanonicalInjective(c: Content, prev: string, d: Content, prev': string)
    ensures Canonical(c, prev) == Canonical(d, prev') <==> SameContent(c, d) && prev == prev'
  {
    if Canonical(c, prev) == Canonical(d, prev') {
      FormInjective(Values(c, prev), Values(d, prev'));
      SameValues(c, prev, d, prev');
    }
  }

  lemma SameValues(c: Content, prev: string, d: Content, prev': string)
    requires Values(c, prev) == Values(d, prev')
    ensures SameContent(c, d) && prev == prev'
  {
    var v, w := Values(c, prev), Values(d, prev');
    assert v[0] == w[0] && v[1] == w[1] && v[2] == w[2] && v[3] == w[3] && v[4] == w[4];
    assert v[5] == w[5] && v[6] == w[6] && v[8] == w[8] && v[9] == w[9] && v[10] == w[10];
    assert v[7] == w[7] && "1"[0] != "0"[0];
    assert v[11] == w[11];
    DecimalInjective(c.severity, d.severity);
    assert v[12] == w[12] && v[13] == w[13] && v[14] == w[14];
  }

  // ---------- the form by its keys ----------

  /** What comes before the first c, and what comes after it. */
  function Until(t: string, c: char): (r: Option<(string, string)>)
    ensures r.Some? ==> |r.value.1| < |t|
  {
    if t == "" then None
    else if t[0] == c then Some(("", t[1..]))
    else
      match Until(t[1..], c)
      case None => None
      case Some((before, after)) => Some(([t[0]] + before, after))
  }

  /** A reader of canonical forms: the key and the value of each line. */
  function ReadForm(t: string): Option<seq<(string, string)>>
    decreases |t|
  {
    if t == "" then Some([])
    else
      match Until(t, '\n')
      case None => None
      case Some((line, rest)) =>
        var field, others := Until(line, '='), ReadForm(rest);
        if field.None? || others.None? || Unescape(field.value.1).None? then None
        else Some([(field.value.0, Unescape(field.value.1).value)] + others.value)
  }

  lemma {:induction false} UntilFound(a: string, c: char, b: string)
    requires c !in a
    ensures Until(a + [c] + b, c) == Some((a, b))
  {
    var t := a + [c] + b;
    if a == "" {
      assert t == [c] + b && t[1..] == b;
    } else {
      assert a == [a[0]] + a[1..] && t[0] == a[0];
      assert t[1..] == a[1..] + [c] + b;
      UntilFound(a[1..], c, b);
    }
  }

  function Paired(keys: seq<string>, values: seq<string>): (pairs: seq<(string, string)>)
    requires |keys| == |values|
    ensures |pairs| == |keys| && forall k :: 0 <= k < |keys| ==> pairs[k] == (keys[k], values[k])
  {
    if keys == [] then [] else [(keys[0], values[0])] + Paired(keys[1..], values[1..])
  }

  predicate IsKey(key: string) {
    '\n' !in key && '=' !in key
  }

  lemma LineReads(key: string, value: string, rest: string)
    requires IsKey(key)
    ensures ReadForm(Line(key, value) + rest)
         == match ReadForm(rest)
            case None => None
            case Some(others) => Some([(key, value)] + others)
  {
    var line := key + "=" + Escape(value);
    EscapedHasNoLineBreak(value);
    UnescapeEscape(value);
    assert Line(key, value) + rest == line + ['\n'] + rest;
    UntilFound(line, '\n', rest);
    assert line == key + ['='] + Escape(value);
    UntilFound(key, '=', Escape(value));
  }

  lemma {:induction false} LinesRead(keys: seq<string>, values: seq<string>)
    requires |keys| == |values| && forall k :: 0 <= k < |keys| ==> IsKey(keys[k])
    ensures ReadForm(Lines(keys, values)) == Some(Paired(keys, values))
  {
    if keys != [] {
      LinesRead(keys[1..], values[1..]);
      LineReads(keys[0], values[0], Lines(keys[1..], values[1..]));
    }
  }

  /** The value stands under the key, and under no other. */
  ghost predicate Holds(pairs: seq<(string, string)>, key: string, value: string) {
    exists k :: 0 <= k < |pairs| && pairs[k] == (key, value)
                && forall l :: 0 <= l < |pairs| && l != k ==> pairs[l].0 != key
  }

  ghost predicate HoldsContent(pairs: seq<(string, string)>, c: Content, prevHash: string) {
    && Holds(pairs, "id", c.id) && Holds(pairs, "at", c.at.rendered)
    && Holds(pairs, "actor", OrEmpty(c.actor)) && Holds(pairs, "action", OrEmpty(c.action))
    && Holds(pairs, "target", OrEmpty(c.targetId)) && Holds(pairs, "detail", OrEmpty(c.detail))
    && Holds(pairs, "corr", OrEmpty(c.correlationId)) && Holds(pairs, "ok", if c.succeeded then "1" else "0")
    && Holds(pairs, "err", OrEmpty(c.errorMessage)) && Holds(pairs, "ip", OrEmpty(c.sourceIp))
    && Holds(pairs, "ua", OrEmpty(c.userAgent)) && Holds(pairs, "sev", Decimal(c.severity))
    && Holds(pairs, "before", OrEmpty(c.payloadBefore)) && Holds(pairs, "after", OrEmpty(c.payloadAfter))
    && Holds(pairs, "prev", prevHash)
  }

  lemma KeysAreKeys()
    ensures forall k :: 0 <= k < |KEYS| ==> IsKey(KEYS[k])
    ensures forall k, l :: 0 <= k < l < |KEYS| ==> KEYS[k] != KEYS[l]
  {
  }

  lemma PairHeld(keys: seq<string>, values: seq<string>, k: nat)
    requires |values| == |keys| && k < |keys|
    requires forall i, j :: 0 <= i < j < |keys| ==> keys[i] != keys[j]
    ensures Holds(Paired(keys, values), keys[k], values[k])
  {
    assert Paired(keys, values)[k] == (keys[k], values[k]);
  }

  lemma KeyHeld(values: seq<string>, k: nat)
    requires |values| == |KEYS| && k < |KEYS|
    ensures Holds(Paired(KEYS, values), KEYS[k], values[k])
  {
    KeysAreKeys();
    PairHeld(KEYS, values, k);
  }

  lemma PairsHoldContent(pairs: seq<(string, string)>, c: Content, prevHash: string)
    requires pairs == Paired(KEYS, Values(c, prevHash))
    ensures HoldsContent(pairs, c, prevHash)
  {
    var values := Values(c, prevHash);
    KeyHeld(values, 0);
    KeyHeld(values, 1);
    KeyHeld(values, 2);
    KeyHeld(values, 3);
    KeyHeld(values, 4);
    KeyHeld(values, 5);
    KeyHeld(values, 6);
    KeyHeld(values, 7);
    KeyHeld(values, 8);
    KeyHeld(values, 9);
    KeyHeld(values, 10);
    KeyHeld(values, 11);
    KeyHeld(values, 12);
    KeyHeld(values, 13);
    KeyHeld(values, 14);
  }

  /** A reader finds in a canonical form fifteen lines, with each field of the entry under its own key. */
  lemma FieldsUnderKeys(c: Content, prevHash: string) returns (pairs: seq<(string, string)>)
    ensures ReadForm(Canonical(c, prevHash)) == Some(pairs)
    ensures |pairs| == 15 && HoldsContent(pairs, c, prevHash)
  {
    pairs := Paired(KEYS, Values(c, prevHash));
    KeysAreKeys();
    LinesRead(KEYS, Values(c, prevHash));
    PairsHoldContent(pairs, c, prevHash);
  }
}
