/**
 The encoding.TextMarshaler / TextUnmarshaler and json.Marshaler /
 Unmarshaler adapters: thin wrappers over String and Decode.  An unmarshal
 method writes through its receiver only on success, so each is modelled as
 taking the receiver's current value and returning its value afterwards
 together with the error.
 */
module Adapters {

  import opened Binary
  import opened Errors
  import opened ObjectId
  import Hex

  /** The ASCII double quote '"'. */
  const QUOTE: byte := 0x22

  /** MarshalText: the text form, never an error. */
  function MarshalText(id: ID): (r: GoResult<seq<byte>, Error>)
    ensures r.Ok()
    ensures |r.value| == STRING_SIZE
    ensures forall i :: 0 <= i < |r.value| ==> Hex.IsLowerHexDigit(r.value[i])
    ensures Decode(r.value) == GoResult(id, None)
  {
    DecodeOfString(id);
    GoResult(String(id), None)
  }

  /** UnmarshalText: the receiver becomes the decoded identifier, or keeps
      its value when decoding fails. */
  function UnmarshalText(receiver: ID, b: seq<byte>): (r: GoResult<ID, Error>)
    ensures r.Ok() <==> |b| == STRING_SIZE && Hex.AllHexDigits(b)
    ensures r.error == Decode(b).error
    ensures r.Ok() ==> String(r.value) == Hex.ToLower(b)
    ensures !r.Ok() ==> r.value == receiver
  {
    var decoded := Decode(b);
    if !decoded.Ok() then
      GoResult(receiver, decoded.error)
    else
      StringOfDecode(b);
      GoResult(decoded.value, None)
  }

  /** Text round trip: whatever the receiver held, unmarshalling the
      marshalled text of id sets it to id. */
  lemma UnmarshalTextOfMarshalText(receiver: ID, id: ID)
    ensures UnmarshalText(receiver, MarshalText(id).value) == GoResult(id, None)
  {
  }

  /** MarshalJSON: json.Marshal of the text form, a JSON string.  Hex digits
      need no escaping, so it is the text form between two quotes. */
  function MarshalJSON(id: ID): (r: GoResult<seq<byte>, Error>)
    ensures r.Ok()
    ensures |r.value| == STRING_SIZE + 2
    ensures r.value[0] == QUOTE && r.value[|r.value| - 1] == QUOTE
    ensures r.value[1..|r.value| - 1] == String(id)
  {
    GoResult([QUOTE] + String(id) + [QUOTE], None)
  }

  /** strings.TrimLeft with the cutset "\"": drops every leading quote. */
  function TrimLeftQuotes(s: seq<byte>): (r: seq<byte>)
    ensures |r| <= |s| && r == s[|s| - |r|..]
    ensures forall i :: 0 <= i < |s| - |r| ==> s[i] == QUOTE
    ensures |r| > 0 ==> r[0] != QUOTE
  {
    if |s| > 0 && s[0] == QUOTE then
      var r := TrimLeftQuotes(s[1..]);
      assert r == s[|s| - |r|..];
      assert forall i :: 1 <= i < |s| - |r| ==> s[i] == s[1..][i - 1];
      r
    else
      s
  }

  /** strings.TrimRight with the cutset "\"": drops every trailing quote. */
  function TrimRightQuotes(s: seq<byte>): (r: seq<byte>)
    ensures |r| <= |s| && r == s[..|r|]
    ensures forall i :: |r| <= i < |s| ==> s[i] == QUOTE
    ensures |r| > 0 ==> r[|r| - 1] != QUOTE
  {
    if |s| > 0 && s[|s| - 1] == QUOTE then
      var r := TrimRightQuotes(s[..|s| - 1]);
      assert r == s[..|r|];
      assert forall i :: |r| <= i < |s| - 1 ==> s[i] == s[..|s| - 1][i];
      r
    else
      s
  }

  /** strings.Trim(s, "\""): every leading and every trailing quote removed,
      not just one pair. */
  function TrimQuotes(s: seq<byte>): (r: seq<byte>)
    ensures var k := |s| - |TrimLeftQuotes(s)|;
            && k + |r| <= |s|
            && r == s[k..k + |r|]
            && (forall i :: 0 <= i < k ==> s[i] == QUOTE)
            && (forall i :: k + |r| <= i < |s| ==> s[i] == QUOTE)
    ensures |r| > 0 ==> r[0] != QUOTE && r[|r| - 1] != QUOTE
  {
    var left := TrimLeftQuotes(s);
    var r := TrimRightQuotes(left);
    TrimBothEnds(s, left, r);
    r
  }

  /** A prefix of a suffix of s is a middle slice of s; what the two cuts
      dropped is all quote characters, and the slice keeps the unquoted
      ends. */
  lemma TrimBothEnds(s: seq<byte>, left: seq<byte>, r: seq<byte>)
    requires |left| <= |s| && left == s[|s| - |left|..]
    requires forall i :: 0 <= i < |s| - |left| ==> s[i] == QUOTE
    requires |r| <= |left| && r == left[..|r|]
    requires forall i :: |r| <= i < |left| ==> left[i] == QUOTE
    requires |left| > 0 ==> left[0] != QUOTE
    requires |r| > 0 ==> r[|r| - 1] != QUOTE
    ensures var k := |s| - |left|;
            && k + |r| <= |s|
            && r == s[k..k + |r|]
            && (forall i :: 0 <= i < k ==> s[i] == QUOTE)
            && (forall i :: k + |r| <= i < |s| ==> s[i] == QUOTE)
    ensures |r| > 0 ==> r[0] != QUOTE && r[|r| - 1] != QUOTE
  {
    var k := |s| - |left|;
    assert forall i :: k + |r| <= i < |s| ==> s[i] == left[i - k];
  }

  /** A string made only of quotes trims to nothing. */
  lemma {:induction false} TrimQuotesOfQuotes(n: nat)
    ensures TrimQuotes(Quotes(n)) == []
  {
    TrimLeftOfQuotes(n);
  }

  lemma {:induction false} TrimLeftOfQuotes(n: nat)
    ensures TrimLeftQuotes(Quotes(n)) == []
  {
    if n > 0 {
      assert Quotes(n)[1..] == Quotes(n - 1);
      TrimLeftOfQuotes(n - 1);
    }
  }

  /** Trimming leaves a string that neither starts nor ends with a quote as
      it is, and strips any number of quotes around it. */
  lemma {:induction false} TrimQuotesAround(t: seq<byte>, left: nat, right: nat)
    requires |t| > 0 && t[0] != QUOTE && t[|t| - 1] != QUOTE
    ensures TrimQuotes(Quotes(left) + t + Quotes(right)) == t
  {
    TrimLeftAround(t + Quotes(right), left);
    assert Quotes(left) + t + Quotes(right) == Quotes(left) + (t + Quotes(right));
    TrimRightAround(t, right);
  }

  /** n quote characters. */
  function Quotes(n: nat): (r: seq<byte>)
    ensures |r| == n
    ensures forall i :: 0 <= i < n ==> r[i] == QUOTE
  {
    seq(n, _ => QUOTE)
  }

  lemma {:induction false} TrimLeftAround(u: seq<byte>, left: nat)
    requires |u| > 0 && u[0] != QUOTE
    ensures TrimLeftQuotes(Quotes(left) + u) == u
    decreases left
  {
    if left > 0 {
      assert (Quotes(left) + u)[1..] == Quotes(left - 1) + u;
      TrimLeftAround(u, left - 1);
    } else {
      assert Quotes(left) + u == u;
    }
  }

  lemma {:induction false} TrimRightAround(t: seq<byte>, right: nat)
    requires |t| > 0 && t[|t| - 1] != QUOTE
    ensures TrimRightQuotes(t + Quotes(right)) == t
    decreases right
  {
    if right > 0 {
      assert (t + Quotes(right))[..|t| + right - 1] == t + Quotes(right - 1);
      TrimRightAround(t, right - 1);
    } else {
      assert t + Quotes(right) == t;
    }
  }

  /** UnmarshalJSON: trims the surrounding quotes and decodes; the receiver
      keeps its value when decoding fails. */
  function UnmarshalJSON(receiver: ID, data: seq<byte>): (r: GoResult<ID, Error>)
    ensures r.Ok() <==> |TrimQuotes(data)| == STRING_SIZE && Hex.AllHexDigits(TrimQuotes(data))
    ensures r.error == Decode(TrimQuotes(data)).error
    ensures r.Ok() ==> String(r.value) == Hex.ToLower(TrimQuotes(data))
    ensures !r.Ok() ==> r.value == receiver
  {
    var str := TrimQuotes(data);
    var decoded := Decode(str);
    if !decoded.Ok() then
      GoResult(receiver, decoded.error)
    else
      StringOfDecode(str);
      GoResult(decoded.value, None)
  }

  /** JSON round trip: whatever the receiver held, unmarshalling the
      marshalled JSON of id sets it to id. */
  lemma UnmarshalJSONOfMarshalJSON(receiver: ID, id: ID)
    ensures UnmarshalJSON(receiver, MarshalJSON(id).value) == GoResult(id, None)
  {
    assert MarshalJSON(id).value == Quotes(1) + String(id) + Quotes(1);
    UnmarshalJSONLenient(receiver, id, 1, 1);
  }

  /** The trimming is lenient: the bare text form, or one wrapped in any
      number of quotes on either side, is accepted just the same. */
  lemma UnmarshalJSONLenient(receiver: ID, id: ID, left: nat, right: nat)
    ensures UnmarshalJSON(receiver, Quotes(left) + String(id) + Quotes(right)) == GoResult(id, None)
  {
    var s := String(id);
    assert s[0] != QUOTE && s[|s| - 1] != QUOTE;
    TrimQuotesAround(s, left, right);
    DecodeOfString(id);
  }

  /** The ASCII text 640c5fe5d243553cda8dde1b. */
  const EXAMPLE_TEXT: seq<byte> := [0x36, 0x34, 0x30, 0x63, 0x35, 0x66, 0x65, 0x35, 0x64, 0x32, 0x34, 0x33, 0x35, 0x35, 0x33, 0x63, 0x64, 0x61, 0x38, 0x64, 0x64, 0x65, 0x31, 0x62]

  /** The JSON value "640c5fe5d243553cda8dde1b" unmarshals to the identifier
      whose text form is those 24 digits. */
  lemma UnmarshalJSONExample(receiver: ID, data: seq<byte>)
    requires data == [QUOTE] + EXAMPLE_TEXT + [QUOTE]
    ensures UnmarshalJSON(receiver, data).Ok()
    ensures String(UnmarshalJSON(receiver, data).value) == EXAMPLE_TEXT
  {
    ExampleIsLowerHex(EXAMPLE_TEXT);
    LowerHexText(EXAMPLE_TEXT);
    assert data == Quotes(1) + EXAMPLE_TEXT + Quotes(1);
    TrimQuotesAround(EXAMPLE_TEXT, 1, 1);
  }

  /** The identifier spelled 640c5fe5d243553cda8dde1b carries the timestamp
      0x640c5fe5: its first eight digits. */
  lemma ExampleTimestamp(id: ID)
    requires String(id) == EXAMPLE_TEXT
    ensures Timestamp(id) == 0x640c_5fe5
  {
    Hex.EncodeSpells(id);
    var t := EXAMPLE_TEXT;
    assert id[0] == Hex.PairValue(t[0], t[1]) == 0x64;
    assert id[1] == Hex.PairValue(t[2], t[3]) == 0x0c;
    assert id[2] == Hex.PairValue(t[4], t[5]) == 0x5f;
    assert id[3] == Hex.PairValue(t[6], t[7]) == 0xe5;
    BigEndianDigits(id[..TIMESTAMP_SIZE]);
  }

  lemma ExampleIsLowerHex(t: seq<byte>)
    requires t == EXAMPLE_TEXT
    ensures forall i :: 0 <= i < |t| ==> Hex.IsLowerHexDigit(t[i])
  {
  }

  /** Text made only of lower-case digits is hex and its own lower case. */
  lemma LowerHexText(t: seq<byte>)
    requires forall i :: 0 <= i < |t| ==> Hex.IsLowerHexDigit(t[i])
    ensures Hex.AllHexDigits(t)
    ensures Hex.ToLower(t) == t
  {
  }

  /** The ASCII text null. */
  const NULL_TEXT: seq<byte> := [0x6e, 0x75, 0x6c, 0x6c]

  /** The JSON literal null is not given the usual no-op treatment: it fails
      to decode, and the receiver keeps its value. */
  lemma UnmarshalJSONNull(receiver: ID)
    ensures UnmarshalJSON(receiver, NULL_TEXT) == GoResult(receiver, Some(LengthNot24))
  {
    TrimQuotesAround(NULL_TEXT, 0, 0);
    assert Quotes(0) + NULL_TEXT + Quotes(0) == NULL_TEXT;
  }
}
