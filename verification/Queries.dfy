/** Query strings, form bodies and signed queries, against a parser that reads them back. */
module Queries {
  import opened Options
  import opened Encoding

  datatype Param = Param(key: bytes, value: bytes)

  function EncodePair(p: Param, form: bool): string {
    Encode(p.key, form) + "=" + Encode(p.value, form)
  }

  /** The pairs joined by `&`. */
  function Join(params: seq<Param>, form: bool): string {
    if params == [] then ""
    else if |params| == 1 then EncodePair(params[0], form)
    else EncodePair(params[0], form) + "&" + Join(params[1..], form)
  }

  function BuildQueryString(params: seq<Param>): string {
    if params == [] then "" else "?" + Join(params, false)
  }

  method FormEncode(params: seq<Param>) returns (out: string)
    ensures out == Join(params, true)
  {
    out := "";
    for i := 0 to |params|
      invariant out == Join(params[..i], true)
    {
      JoinPush(params, i, true);
      if i > 0 {
        out := out + "&";
      }
      var key := FormUrlEncode(params[i].key);
      var value := FormUrlEncode(params[i].value);
      out := out + key;
      out := out + "=";
      out := out + value;
    }
    assert params[..|params|] == params;
  }

  lemma {:induction false} JoinConcat(a: seq<Param>, b: seq<Param>, form: bool)
    requires a != [] && b != []
    ensures Join(a + b, form) == Join(a, form) + "&" + Join(b, form)
  {
    assert (a + b)[1..] == a[1..] + b;
    if |a| > 1 {
      JoinConcat(a[1..], b, form);
    } else {
      assert a[1..] + b == b;
    }
  }

  lemma JoinPush(params: seq<Param>, i: nat, form: bool)
    requires i < |params|
    ensures Join(params[..i + 1], form) ==
      if i == 0 then EncodePair(params[0], form)
      else Join(params[..i], form) + "&" + EncodePair(params[i], form)
  {
    assert params[..i + 1] == params[..i] + [params[i]];
    if i > 0 {
      JoinConcat(params[..i], [params[i]], form);
    }
  }

  // Reading a query back

  /** The first position of `c`, or the length when there is none. */
  function IndexOf(t: string, c: char): (i: nat)
    ensures i <= |t|
  {
    if t == "" || t[0] == c then 0 else 1 + IndexOf(t[1..], c)
  }

  function ParsePair(t: string, form: bool): Option<Param> {
    var i := IndexOf(t, '=');
    if i == |t| then None
    else
      var key, value := Decode(t[..i], form), Decode(t[i + 1..], form);
      if key.Some? && value.Some? then Some(Param(key.value, value.value)) else None
  }

  function ParsePairs(t: string, form: bool): Option<seq<Param>>
    decreases |t|
  {
    var i := IndexOf(t, '&');
    var first := ParsePair(t[..i], form);
    if first.None? then None
    else if i == |t| then Some([first.value])
    else
      var rest := ParsePairs(t[i + 1..], form);
      if rest.None? then None else Some([first.value] + rest.value)
  }

  function ParseForm(body: string): Option<seq<Param>> {
    if body == "" then Some([]) else ParsePairs(body, true)
  }

  function ParseQueryString(query: string): Option<seq<Param>> {
    if query == "" then Some([])
    else if query[0] == '?' then ParsePairs(query[1..], false)
    else None
  }

  lemma {:induction false} IndexOfFirst(a: string, c: char, b: string)
    requires c !in a
    ensures IndexOf(a + [c] + b, c) == |a|
  {
    if a == "" {
    } else {
      IndexOfFirst(a[1..], c, b);
      assert (a + [c] + b)[1..] == a[1..] + [c] + b;
    }
  }

  lemma {:induction false} IndexOfAbsent(a: string, c: char)
    requires c !in a
    ensures IndexOf(a, c) == |a|
  {
    if a == "" {
    } else {
      IndexOfAbsent(a[1..], c);
    }
  }

  lemma ParseEncodedPair(p: Param, form: bool)
    ensures ParsePair(EncodePair(p, form), form) == Some(p)
    ensures '&' !in EncodePair(p, form)
  {
    var key, value, t := Encode(p.key, form), Encode(p.value, form), EncodePair(p, form);
    EncodeHasNoSeparator(p.key, form);
    EncodeHasNoSeparator(p.value, form);
    IndexOfFirst(key, '=', value);
    assert t[..|key|] == key && t[|key| + 1..] == value;
    DecodeEncode(p.key, form);
    DecodeEncode(p.value, form);
  }

  lemma ParseFirst(first: string, p: Param, rest: string, form: bool)
    requires ParsePair(first, form) == Some(p) && '&' !in first
    ensures ParsePairs(first + "&" + rest, form) ==
      var tail := ParsePairs(rest, form);
      if tail.None? then None else Some([p] + tail.value)
  {
    var t := first + "&" + rest;
    IndexOfFirst(first, '&', rest);
    assert t == first + ['&'] + rest;
    assert t[..|first|] == first && t[|first| + 1..] == rest;
  }

  lemma ParseLast(last: string, p: Param, form: bool)
    requires ParsePair(last, form) == Some(p) && '&' !in last
    ensures ParsePairs(last, form) == Some([p])
  {
    IndexOfAbsent(last, '&');
    assert last[..|last|] == last;
  }

  lemma {:induction false} ParseJoin(params: seq<Param>, form: bool)
    requires params != []
    ensures ParsePairs(Join(params, form), form) == Some(params)
    ensures Join(params, form) != ""
  {
    var first := EncodePair(params[0], form);
    ParseEncodedPair(params[0], form);
    if |params| == 1 {
      ParseLast(first, params[0], form);
      assert params == [params[0]];
    } else {
      ParseJoin(params[1..], form);
      ParseFirst(first, params[0], Join(params[1..], form), form);
      assert params == [params[0]] + params[1..];
    }
  }

  /** The query string parses back to exactly the parameter list, whatever bytes it holds. */
  lemma QueryRoundTrip(params: seq<Param>)
    ensures ParseQueryString(BuildQueryString(params)) == Some(params)
  {
    if params != [] {
      ParseJoin(params, false);
    }
  }

  lemma FormRoundTrip(params: seq<Param>)
    ensures ParseForm(Join(params, true)) == Some(params)
  {
    if params != [] {
      ParseJoin(params, true);
    }
  }

  // Signed queries

  const RECV_WINDOW := "recvWindow"
  const TIMESTAMP := "timestamp"
  const SIGNATURE := "signature"
  const SIGNATURE_MARK := "&" + SIGNATURE + "="

  function NumberParam(name: string, n: nat): (p: Param)
    requires IsPlain(name)
  {
    DecimalRoundTrip(n);
    Param(Ascii(name), Ascii(Decimal(n)))
  }

  /** The parameters that a signed query covers. */
  function SignedParams(params: seq<Param>, recvWindow: nat, nowMs: nat): seq<Param> {
    params + [NumberParam(RECV_WINDOW, recvWindow), NumberParam(TIMESTAMP, nowMs)]
  }

  lemma NumberPairText(name: string, n: nat, form: bool)
    requires IsPlain(name)
    ensures EncodePair(NumberParam(name, n), form) == name + "=" + Decimal(n)
  {
    DecimalRoundTrip(n);
    PlainEncodesAsItself(name, form);
    PlainEncodesAsItself(Decimal(n), form);
  }

  /** `sign` is the keyed hash; what it returns is appended to the bytes it was given. */
  method SignedQuery(params: seq<Param>, recvWindow: nat, nowMs: nat, sign: string -> string) returns (q: string)
    ensures var payload := Join(SignedParams(params, recvWindow, nowMs), false);
      q == payload + SIGNATURE_MARK + sign(payload)
  {
    q := "";
    for i := 0 to |params|
      invariant q == Join(params[..i], false)
      invariant q == "" <==> i == 0
    {
      JoinPush(params, i, false);
      if q != "" {
        q := q + "&";
      }
      var key := PercentEncode(params[i].key);
      var value := PercentEncode(params[i].value);
      q := q + key;
      q := q + "=";
      q := q + value;
    }
    assert params[..|params|] == params;
    SignedPayloadText(params, recvWindow, nowMs);
    if q != "" {
      q := q + "&";
    }
    q := q + (RECV_WINDOW + "=" + Decimal(recvWindow) + "&" + (TIMESTAMP + "=" + Decimal(nowMs)));
    var signature := sign(q);
    q := q + SIGNATURE_MARK;
    q := q + signature;
  }

  lemma SignedPayloadText(params: seq<Param>, recvWindow: nat, nowMs: nat)
    ensures Join(SignedParams(params, recvWindow, nowMs), false) ==
      (if params == [] then "" else Join(params, false) + "&") +
      (RECV_WINDOW + "=" + Decimal(recvWindow) + "&" + (TIMESTAMP + "=" + Decimal(nowMs)))
  {
    var window, stamp := NumberParam(RECV_WINDOW, recvWindow), NumberParam(TIMESTAMP, nowMs);
    NumberPairText(RECV_WINDOW, recvWindow, false);
    NumberPairText(TIMESTAMP, nowMs, false);
    JoinTwo(window, stamp, false);
    if params != [] {
      JoinConcat(params, [window, stamp], false);
    } else {
      assert params + [window, stamp] == [window, stamp];
    }
  }

  lemma NamesAsSent()
    ensures RECV_WINDOW + "=" == "recvWindow=" && TIMESTAMP + "=" == "timestamp=" && SIGNATURE_MARK == "&signature="
  {
  }

  /** The text of a signed query: the parameters, the two stamps in this order and the signature. */
  lemma SignedQueryText(params: seq<Param>, recvWindow: nat, nowMs: nat, signature: string)
    ensures Join(SignedParams(params, recvWindow, nowMs), false) + SIGNATURE_MARK + signature ==
      (if params == [] then "" else Join(params, false) + "&") +
      ("recvWindow=" + Decimal(recvWindow) + "&" + ("timestamp=" + Decimal(nowMs))) + "&signature=" + signature
  {
    NamesAsSent();
    SignedPayloadText(params, recvWindow, nowMs);
  }

  lemma JoinTwo(p: Param, q: Param, form: bool)
    ensures Join([p, q], form) == EncodePair(p, form) + "&" + EncodePair(q, form)
  {
    assert [p, q][1..] == [q];
  }

  predicate OccursAt(q: string, mark: string, i: nat) {
    i + |mark| <= |q| && q[i..i + |mark|] == mark
  }

  /** The last place where `mark` occurs in `q`. */
  ghost predicate IsFinalOccurrence(q: string, mark: string, i: nat) {
    OccursAt(q, mark, i) && forall j: nat :: j > i ==> !OccursAt(q, mark, j)
  }

  predicate IsLowerHex(t: string) {
    forall i :: 0 <= i < |t| ==> '0' <= t[i] <= '9' || 'a' <= t[i] <= 'f'
  }

  /** Cutting a signed query at its final `&signature=` gives exactly the signed bytes,
  even when a parameter is itself named `signature`. */
  lemma FinalMarkCutsAtSignedBytes(payload: string, signature: string, i: nat)
    requires IsLowerHex(signature)
    ensures var q := payload + SIGNATURE_MARK + signature;
      IsFinalOccurrence(q, SIGNATURE_MARK, i) <==> i == |payload|
    ensures var q := payload + SIGNATURE_MARK + signature;
      q[..|payload|] == payload && q[|payload| + |SIGNATURE_MARK|..] == signature
  {
    var q := payload + SIGNATURE_MARK + signature;
    MarkStartsWithItsOnlyAmpersand();
    assert q[|payload|..|payload| + |SIGNATURE_MARK|] == SIGNATURE_MARK;
    assert OccursAt(q, SIGNATURE_MARK, |payload|);
    forall j: nat | j > |payload| ensures !OccursAt(q, SIGNATURE_MARK, j) {
      if j < |payload| + |SIGNATURE_MARK| {
        assert q[j] == SIGNATURE_MARK[j - |payload|];
      } else if j < |q| {
        assert q[j] == signature[j - |payload| - |SIGNATURE_MARK|];
      }
      assert j + |SIGNATURE_MARK| <= |q| ==> q[j..j + |SIGNATURE_MARK|][0] == q[j];
    }
  }

  lemma MarkStartsWithItsOnlyAmpersand()
    ensures |SIGNATURE_MARK| == 11 && SIGNATURE_MARK[0] == '&'
    ensures forall k :: 0 < k < |SIGNATURE_MARK| ==> SIGNATURE_MARK[k] != '&'
  {
  }

  /** The whole signed query parses to the parameters, the two stamps and the signature. */
  lemma SignedQueryRoundTrip(params: seq<Param>, recvWindow: nat, nowMs: nat, signature: string)
    requires IsLowerHex(signature)
    ensures IsPlain(signature)
    ensures ParsePairs(Join(SignedParams(params, recvWindow, nowMs), false) + SIGNATURE_MARK + signature, false)
      == Some(SignedParams(params, recvWindow, nowMs) + [Param(Ascii(SIGNATURE), Ascii(signature))])
  {
    var covered, last := SignedParams(params, recvWindow, nowMs), Param(Ascii(SIGNATURE), Ascii(signature));
    JoinConcat(covered, [last], false);
    PlainEncodesAsItself(SIGNATURE, false);
    PlainEncodesAsItself(signature, false);
    MarkedText(Join(covered, false), signature);
    ParseJoin(covered + [last], false);
  }

  lemma MarkedText(payload: string, signature: string)
    ensures payload + SIGNATURE_MARK + signature == payload + "&" + (SIGNATURE + "=" + signature)
  {
  }

  // Nonce-prefixed form bodies

  const NONCE := "nonce"

  /** The signed body of a private request: the nonce leads the parameters. */
  function NonceBody(nonce: nat, params: seq<Param>): string {
    Join([NumberParam(NONCE, nonce)] + params, true)
  }

  /** The nonce leads the parameters, in decimal. */
  lemma NonceBodyText(nonce: nat, params: seq<Param>)
    ensures NonceBody(nonce, params) ==
      "nonce=" + Decimal(nonce) + (if params == [] then "" else "&" + Join(params, true))
  {
    var stamp := [NumberParam(NONCE, nonce)];
    NumberPairText(NONCE, nonce, true);
    assert NONCE + "=" == "nonce=" && Join(stamp, true) == EncodePair(stamp[0], true);
    if params == [] {
      assert stamp + params == stamp;
    } else {
      JoinConcat(stamp, params, true);
    }
  }

  /** A body names its nonce, so bodies with different nonces differ. */
  lemma NonceBodyNamesNonce(m: nat, n: nat, p: seq<Param>, q: seq<Param>)
    requires NonceBody(m, p) == NonceBody(n, q)
    ensures m == n && p == q
  {
    var a, b := [NumberParam(NONCE, m)] + p, [NumberParam(NONCE, n)] + q;
    FormRoundTrip(a);
    FormRoundTrip(b);
    assert a == b;
    assert a[0] == b[0] && a[1..] == p && b[1..] == q;
    DecimalRoundTrip(m);
    DecimalRoundTrip(n);
    AsciiIsInjective(Decimal(m), Decimal(n));
  }

  lemma AsciiIsInjective(t: string, u: string)
    requires IsPlain(t) && IsPlain(u) && Ascii(t) == Ascii(u)
    ensures t == u
  {
    forall i | 0 <= i < |t| ensures t[i] == u[i] {
      assert Ascii(t)[i] == Ascii(u)[i];
    }
  }
}
