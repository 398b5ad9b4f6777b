/** The text protocol spoken over the serial link: how the programmer words
    its read and write requests, how it reads the replies, and a reference
    decoder for requests as the firmware on the other end must read them. */
module Protocol {
  import opened Common
  import opened Text
  import opened HexText
  import opened Validate

  /** A read request, "R, <hex address>, <hex size>". */
  function ReadRequest(address: int, size: int): string {
    "R, " + Hex(address) + ", " + Hex(size)
  }

  /** One ", <hex value>" field per value, in order. */
  function ByteFields(values: seq<int>): string {
    if |values| == 0 then "" else ", " + Hex(values[0]) + ByteFields(values[1..])
  }

  /** A write request, "W, <hex address>, <hex size>" and then one
      ", <hex byte>" field per data byte. */
  function WriteRequest(address: int, size: int, data: seq<int>): string {
    "W, " + Hex(address) + ", " + Hex(size) + ByteFields(data)
  }

  /** The write request as the source builds it: the text is assigned only
      inside the loop over the data, so an empty data vector leaves nothing
      to send (`None`). */
  function WriteRequestAsWritten(address: int, size: int, data: seq<int>): (r: Option<string>)
    ensures r.None? <==> |data| == 0
  {
    if |data| == 0 then None else Some(WriteRequest(address, size, data))
  }

  /** Python's `[int(val, 16) for val in tokens]`: every token parsed, order
      kept; a single unparsable token makes the whole conversion fail. */
  function ParseAll(tokens: seq<string>): (r: Option<seq<nat>>)
    ensures r.Some? ==> |r.value| == |tokens|
                        && forall i :: 0 <= i < |tokens| ==> ParseHexInt(tokens[i]) == Some(r.value[i])
    ensures r.None? ==> exists i :: 0 <= i < |tokens| && ParseHexInt(tokens[i]).None?
  {
    if |tokens| == 0 then Some([])
    else match ParseHexInt(tokens[0])
      case None => FailsSomewhere(tokens); None
      case Some(v) =>
        match ParseAll(tokens[1..])
        case None => FailsSomewhere(tokens); None
        case Some(rest) => ParsedCons(tokens, v, rest); Some([v] + rest)
  }

  /** The first token's value followed by the tail's values are the values
      of the whole list, position by position. */
  lemma ParsedCons(tokens: seq<string>, v: nat, rest: seq<nat>)
    requires |tokens| > 0 && ParseHexInt(tokens[0]) == Some(v)
    requires |rest| == |tokens[1..]|
    requires forall j :: 0 <= j < |tokens[1..]| ==> ParseHexInt(tokens[1..][j]) == Some(rest[j])
    ensures forall i :: 0 <= i < |tokens| ==> ParseHexInt(tokens[i]) == Some(([v] + rest)[i])
  {
    ConsPointwise(ParseHexInt, tokens, v, rest);
  }

  lemma ConsPointwise<A, B>(f: A -> Option<B>, xs: seq<A>, y: B, ys: seq<B>)
    requires |xs| > 0 && f(xs[0]) == Some(y)
    requires |ys| == |xs[1..]|
    requires forall j :: 0 <= j < |xs[1..]| ==> f(xs[1..][j]) == Some(ys[j])
    ensures forall i :: 0 <= i < |xs| ==> f(xs[i]) == Some(([y] + ys)[i])
  {
    forall i | 0 <= i < |xs|
      ensures f(xs[i]) == Some(([y] + ys)[i])
    {
      if i > 0 {
        assert xs[1..][i - 1] == xs[i];
        assert ([y] + ys)[i] == ys[i - 1];
      }
    }
  }

  /** A token that fails to parse, first or in the tail, is one of the list. */
  lemma FailsSomewhere(tokens: seq<string>)
    requires |tokens| > 0
    requires ParseHexInt(tokens[0]).None?
             || exists j :: 0 <= j < |tokens[1..]| && ParseHexInt(tokens[1..][j]).None?
    ensures exists i :: 0 <= i < |tokens| && ParseHexInt(tokens[i]).None?
  {
    NoneSomewhere(ParseHexInt, tokens);
  }

  lemma NoneSomewhere<A, B>(f: A -> Option<B>, xs: seq<A>)
    requires |xs| > 0
    requires f(xs[0]).None? || exists j :: 0 <= j < |xs[1..]| && f(xs[1..][j]).None?
    ensures exists i :: 0 <= i < |xs| && f(xs[i]).None?
  {
    if !f(xs[0]).None? {
      var j :| 0 <= j < |xs[1..]| && f(xs[1..][j]).None?;
      assert xs[1..][j] == xs[j + 1];
    }
  }

  /** The reply to a read request: the line split on ',' and every token read
      as a hexadecimal integer, in order. No count check is made. */
  function ParseReply(line: string): Result<seq<nat>> {
    match ParseAll(Split(line, ','))
    case Some(values) => Ok(values)
    case None => Err(MalformedReply(line))
  }

  /** A read reply as the firmware words it, e.g. "0x1, 0x2, 0xff". */
  function EncodeReply(values: seq<nat>): string {
    if |values| == 0 then "" else Hex(values[0]) + ByteFields(values[1..])
  }

  /** The tokens a ", <hex>"-separated list splits into. */
  function Fields(values: seq<int>): (tokens: seq<string>)
    ensures |tokens| == |values|
  {
    seq(|values|, i requires 0 <= i < |values| => " " + Hex(values[i]))
  }

  /** A request as the device must understand it. */
  datatype Request = Read(address: nat, size: nat) | Write(address: nat, data: seq<Byte>)

  function Encode(request: Request): string {
    match request
    case Read(address, size) => ReadRequest(address, size)
    case Write(address, data) => WriteRequest(address, |data|, data)
  }

  predicate AllBytes(values: seq<nat>) {
    forall i :: 0 <= i < |values| ==> values[i] < 0x100
  }

  /** Device-side reading of a request line: the command letter, then the
      address and size, then (for a write) exactly `size` byte values. */
  function DecodeRequest(line: string): Option<Request> {
    var tokens := Split(line, ',');
    if |tokens| < 3 then None
    else match ParseAll(tokens[1..])
      case None => None
      case Some(v) =>
        if tokens[0] == "R" && |v| == 2 then Some(Read(v[0], v[1]))
        else if tokens[0] == "W" && |v| == 2 + v[1] && AllBytes(v[2..]) then Some(Write(v[0], v[2..]))
        else None
  }

  lemma {:induction false} ByteFieldsAppend(x: seq<int>, y: seq<int>)
    ensures ByteFields(x + y) == ByteFields(x) + ByteFields(y)
  {
    if |x| > 0 {
      assert (x + y)[1..] == x[1..] + y;
      ByteFieldsAppend(x[1..], y);
    } else {
      assert x + y == y;
    }
  }

  /** Appending one value's field to the fields of a prefix. */
  lemma ByteFieldsSnoc(values: seq<int>, i: nat)
    requires i < |values|
    ensures ByteFields(values[..i + 1]) == ByteFields(values[..i]) + ", " + Hex(values[i])
  {
    var h := Hex(values[i]);
    ByteFieldsAppend(values[..i], [values[i]]);
    assert values[..i + 1] == values[..i] + [values[i]];
    assert ByteFields([values[i]]) == ", " + h + ByteFields([]);
    assert ", " + h + "" == ", " + h;
    AppendAssociates(ByteFields(values[..i]), ", ", h);
  }

  /** A write request over one more value ends in that value's field. */
  lemma WriteRequestSnoc(address: int, size: int, values: seq<int>, i: nat)
    requires i < |values|
    ensures WriteRequest(address, size, values[..i + 1]) == WriteRequest(address, size, values[..i]) + ", " + Hex(values[i])
  {
    ByteFieldsSnoc(values, i);
  }

  lemma FieldShape(head: string, h: string, rest: string)
    ensures head + (", " + h + rest) == head + [','] + (" " + h + rest)
  {
    assert ", " == [','] + " ";
  }

  /** Splitting a separator-free head followed by ", <hex>" fields yields the
      head and then one " <hex>" token per value. */
  lemma {:induction false} SplitFields(head: string, values: seq<int>)
    requires ',' !in head
    ensures Split(head + ByteFields(values), ',') == [head] + Fields(values)
    decreases |values|
  {
    if |values| == 0 {
      assert head + ByteFields(values) == head;
      SplitWithoutSeparator(head, ',');
    } else {
      var h := Hex(values[0]);
      var t := " " + h;
      var rest := ByteFields(values[1..]);
      HexHasNoSeparator(values[0]);
      assert ',' !in t;
      SplitFields(t, values[1..]);
      assert ByteFields(values) == ", " + h + rest;
      FieldShape(head, h, rest);
      SplitAtSeparator(head, ',', t + rest);
      FieldsCons(values);
    }
  }

  lemma FieldsCons(values: seq<int>)
    requires |values| > 0
    ensures Fields(values) == [" " + Hex(values[0])] + Fields(values[1..])
  {
    var tail := Fields(values[1..]);
    forall k | 0 < k < |values|
      ensures Fields(values)[k] == tail[k - 1]
    {
      assert values[1..][k - 1] == values[k];
    }
  }

  lemma ParseAllFields(values: seq<nat>)
    ensures ParseAll(Fields(values)) == Some(values)
  {
    var tokens := Fields(values);
    forall i | 0 <= i < |values|
      ensures ParseHexInt(tokens[i]) == Some(values[i])
    {
      HexRoundTrip(" ", values[i]);
    }
    ParseAllOfParsed(tokens, values);
  }

  /** When every token parses, `ParseAll` gives their values in order. */
  lemma {:induction false} ParseAllOfParsed(tokens: seq<string>, values: seq<nat>)
    requires |tokens| == |values|
    requires forall i :: 0 <= i < |tokens| ==> ParseHexInt(tokens[i]) == Some(values[i])
    ensures ParseAll(tokens) == Some(values)
  {
    if |tokens| > 0 {
      assert ParseAll(tokens[1..]) == Some(values[1..]) by {
        assert forall i :: 0 <= i < |tokens| - 1 ==> tokens[1..][i] == tokens[i + 1] && values[1..][i] == values[i + 1];
        ParseAllOfParsed(tokens[1..], values[1..]);
      }
      ParseAllStep(tokens, values[0], values[1..]);
      HeadTail(values);
    }
  }

  lemma HeadTail<T>(s: seq<T>)
    requires |s| > 0
    ensures s == [s[0]] + s[1..]
  {
  }

  lemma ParseAllStep(tokens: seq<string>, v: nat, rest: seq<nat>)
    requires |tokens| > 0
    requires ParseHexInt(tokens[0]) == Some(v)
    requires ParseAll(tokens[1..]) == Some(rest)
    ensures ParseAll(tokens) == Some([v] + rest)
  {
  }

  /** Encoding a non-empty list of values as a reply line and parsing it with
      the programmer's reply parser gives the same list back, in order. */
  lemma ReplyRoundTrip(values: seq<nat>)
    requires |values| >= 1
    ensures ParseReply(EncodeReply(values)) == Ok(values)
  {
    var line := EncodeReply(values);
    var tokens := [Hex(values[0])] + Fields(values[1..]);
    assert Split(line, ',') == tokens by {
      HexHasNoSeparator(values[0]);
      SplitFields(Hex(values[0]), values[1..]);
    }
    assert ParseAll(tokens) == Some(values) by {
      HexRoundTrip("", values[0]);
      assert "" + Hex(values[0]) == Hex(values[0]);
      assert tokens[1..] == Fields(values[1..]);
      ParseAllFields(values[1..]);
      ParseAllStep(tokens, values[0], values[1..]);
      HeadTail(values);
    }
    ParsedReply(line, values);
  }

  lemma ParsedReply(line: string, values: seq<nat>)
    requires ParseAll(Split(line, ',')) == Some(values)
    ensures ParseReply(line) == Ok(values)
  {
  }

  /** A reply parses exactly when every one of its comma-separated tokens is
      a hexadecimal integer, to one value per token in order; otherwise the
      whole line is reported as malformed. */
  lemma ParseReplyTokens(line: string)
    ensures ParseReply(line).Ok? ==>
              |ParseReply(line).value| == |Split(line, ',')|
              && forall i :: 0 <= i < |Split(line, ',')| ==> ParseHexInt(Split(line, ',')[i]) == Some(ParseReply(line).value[i])
    ensures ParseReply(line).Err? ==>
              ParseReply(line).error == MalformedReply(line)
              && exists i :: 0 <= i < |Split(line, ',')| && ParseHexInt(Split(line, ',')[i]).None?
  {
    var tokens := Split(line, ',');
    var parsed := ParseAll(tokens);
  }

  /** An empty reply line is one empty token, which `int(val, 16)` rejects. */
  lemma EmptyReplyIsMalformed()
    ensures ParseReply("") == Err(MalformedReply(""))
  {
    assert Split("", ',') == [""];
    assert ParseHexInt("").None?;
  }

  lemma ByteFieldsPair(a: int, b: int)
    ensures ByteFields([a, b]) == ", " + Hex(a) + ", " + Hex(b)
  {
    assert [a, b][1..] == [b];
    assert [b][1..] == [];
    assert ByteFields([b]) == ", " + Hex(b) + ByteFields([]);
  }

  /** A read request splits into "R", the address token and the size token. */
  lemma ReadRequestTokens(address: nat, size: nat)
    ensures Split(ReadRequest(address, size), ',') == ["R"] + Fields([address, size])
  {
    ReadRequestFields(address, size);
    SplitFields("R", [address, size]);
  }

  lemma ReadRequestFields(address: int, size: int)
    ensures ReadRequest(address, size) == "R" + ByteFields([address, size])
  {
    ByteFieldsPair(address, size);
    CommandHead('R', Hex(address), Hex(size), "");
  }

  /** A write request splits into "W", the address, the size and one token per byte. */
  lemma WriteRequestTokens(address: nat, data: seq<nat>)
    ensures Split(WriteRequest(address, |data|, data), ',') == ["W"] + Fields([address, |data|] + data)
  {
    WriteRequestFields(address, data);
    SplitFields("W", [address, |data|] + data);
  }

  lemma WriteRequestFields(address: int, data: seq<int>)
    ensures WriteRequest(address, |data|, data) == "W" + ByteFields([address, |data|] + data)
  {
    ByteFieldsPair(address, |data|);
    ByteFieldsAppend([address, |data|], data);
    CommandHead('W', Hex(address), Hex(|data|), ByteFields(data));
  }

  /** "C, a, b" followed by more text is the letter C and then ", a, b" and the text. */
  lemma CommandHead(command: char, a: string, b: string, rest: string)
    ensures [command, ',', ' '] + a + ", " + b + rest == [command] + (", " + a + ", " + b + rest)
  {
  }

  lemma DecodeReadRequest(address: nat, size: nat)
    ensures DecodeRequest(ReadRequest(address, size)) == Some(Read(address, size))
  {
    var tokens := Split(ReadRequest(address, size), ',');
    assert tokens == ["R"] + Fields([address, size]) by {
      ReadRequestTokens(address, size);
    }
    assert ParseAll(tokens[1..]) == Some([address, size]) by {
      assert tokens[1..] == Fields([address, size]);
      ParseAllFields([address, size]);
    }
  }

  lemma DecodeWriteRequest(address: nat, data: seq<Byte>)
    ensures DecodeRequest(WriteRequest(address, |data|, data)) == Some(Write(address, data))
  {
    var values: seq<nat> := [address, |data|] + data;
    WriteRequestParses(address, data, values);
    assert values[2..] == data;
    DecodeWriteTokens(WriteRequest(address, |data|, data), values);
  }

  lemma WriteRequestParses(address: nat, data: seq<Byte>, values: seq<nat>)
    requires values == [address, |data|] + data
    ensures |Split(WriteRequest(address, |data|, data), ',')| >= 3
    ensures Split(WriteRequest(address, |data|, data), ',')[0] == "W"
    ensures ParseAll(Split(WriteRequest(address, |data|, data), ',')[1..]) == Some(values)
  {
    var tokens := Split(WriteRequest(address, |data|, data), ',');
    WriteRequestTokens(address, data);
    assert tokens[1..] == Fields(values);
    ParseAllFields(values);
  }

  lemma DecodeWriteTokens(line: string, values: seq<nat>)
    requires |Split(line, ',')| >= 3 && Split(line, ',')[0] == "W"
    requires ParseAll(Split(line, ',')[1..]) == Some(values)
    requires |values| == 2 + values[1] && AllBytes(values[2..])
    ensures DecodeRequest(line) == Some(Write(values[0], values[2..]))
  {
  }

  /** The device-side decoder reads back exactly the request the programmer
      encoded: command, address, size and every data byte in order. */
  lemma DecodeEncode(request: Request)
    ensures DecodeRequest(Encode(request)) == Some(request)
  {
    match request
    case Read(address, size) => DecodeReadRequest(address, size);
    case Write(address, data) => DecodeWriteRequest(address, data);
  }
}
