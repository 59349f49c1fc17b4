/**
 * The format strings of `rdm/driver.c`: their tokens, their validity, and the
 * interpreter that moves parameter data between memory and the wire.
 *
 * Where the C code has no defined behaviour (a token that reads past the end
 * of the data, an unknown symbol, a division by zero) the model says so.
 */
module Formats {
  import opened Uids
  import opened Bytes
  import opened Arithmetic

  datatype Token =
    | TByte | TWord | TDword | TUid
    | TOptionalUid                 // 'v', ends the format
    | TAscii                       // 'a', ends the format
    | TLiteral(value: Byte)        // 'x' and two hexadecimal digits
    | TStop                        // '$'
    | TUnknown                     // a symbol the interpreter does not know

  const PDL_MAX := 231
  const ASCII_MAX := 32

  // ----- Reading a format string -----

  predicate IsHexDigit(c: char) {
    '0' <= c <= '9' || 'a' <= c <= 'f' || 'A' <= c <= 'F'
  }

  function HexDigit(c: char): (d: nat)
    requires IsHexDigit(c)
    ensures d < 16
  {
    if c <= '9' then c as int - '0' as int
    else if c <= 'F' then c as int - 'A' as int + 10
    else c as int - 'a' as int + 10
  }

  /** The number of characters the token at the head of the format takes. */
  function Width(format: string): (n: nat)
    requires format != []
    ensures 1 <= n <= |format|
  {
    if format[0] == 'x' && |format| >= 3 then 3 else 1
  }

  /** The token at the head of the format, which is not a space. */
  function TokenAt(format: string): Token
    requires format != [] && format[0] != ' '
  {
    match format[0]
    case 'b' => TByte
    case 'w' => TWord
    case 'd' => TDword
    case 'u' => TUid
    case 'v' => TOptionalUid
    case 'a' => TAscii
    case '$' => TStop
    case 'x' =>
      if |format| >= 3 && IsHexDigit(format[1]) && IsHexDigit(format[2])
      then TLiteral(16 * HexDigit(format[1]) + HexDigit(format[2]))
      else TUnknown
    case _ => TUnknown
  }

  function Tokens(format: string): seq<Token> {
    if format == [] then []
    else if format[0] == ' ' then Tokens(format[1..])
    else [TokenAt(format)] + Tokens(format[Width(format)..])
  }

  predicate Ends(t: Token) {
    t.TOptionalUid? || t.TAscii? || t.TStop?
  }

  /** The bytes of memory a token that does not end the format takes. */
  function Size(t: Token): (n: nat)
    ensures !Ends(t) && t != TUnknown ==> n >= 1
  {
    match t
    case TByte => 1
    case TWord => 2
    case TDword => 4
    case TUid => 6
    case TLiteral(_) => 1
    case _ => 0
  }

  // ----- The interpreter, as a function of tokens -----

  datatype Outcome = Encoded(out: seq<Byte>) | Undefined

  function Prepend(s: seq<Byte>, r: Outcome): Outcome {
    match r
    case Encoded(out) => Encoded(s + out)
    case Undefined => Undefined
  }

  /** What a token of fixed size makes of its bytes. */
  function Swapped(t: Token, s: seq<Byte>): (r: seq<Byte>)
    requires |s| == Size(t)
    ensures |r| == Size(t)
  {
    match t
    case TWord => Swap16(s)
    case TDword => Swap32(s)
    case TUid => SwapUid(s)
    case TLiteral(v) => [v]
    case _ => s
  }

  predicate IsNullUid(s: seq<Byte>)
    requires |s| >= 6
  {
    forall i :: 0 <= i < 6 ==> s[i] == 0
  }

  /** `strnlen`: the length of the string at the head of s, at most `limit`. */
  function StringLength(s: seq<Byte>, limit: nat): (n: nat)
    ensures n <= limit && n <= |s|
    ensures forall i :: 0 <= i < n ==> s[i] != 0
    ensures n < limit && n < |s| ==> s[n] == 0
    decreases limit
  {
    if limit == 0 || s == [] || s[0] == 0 then 0
    else 1 + StringLength(s[1..], limit - 1)
  }

  const NULL_UID: seq<Byte> := [0, 0, 0, 0, 0, 0]

  /** What the token that ends the format makes of the data left. */
  function Tail(t: Token, s: seq<Byte>, encodeNulls: bool): seq<Byte>
    requires Ends(t)
  {
    match t
    case TOptionalUid =>
      if |s| < 6 || IsNullUid(s) then (if encodeNulls then NULL_UID else [])
      else SwapUid(s[..6])
    case TAscii =>
      s[..StringLength(s, ASCII_MAX)] + (if encodeNulls then [0] else [])
    case TStop => []
  }

  /**
   * The interpreter with the tokens `todo` of the current pass still ahead.
   * At the end of a pass over `all`, another pass starts if data is left.
   */
  function Encode(all: seq<Token>, todo: seq<Token>, data: seq<Byte>, encodeNulls: bool): Outcome
    decreases |data|, if todo == [] then 1 else 0
  {
    if todo == [] then
      if data == [] then Encoded([])
      else if all == [] then Undefined     // the outer loop never ends
      else Encode(all, all, data, encodeNulls)
    else
      var t := todo[0];
      if Ends(t) then Encoded(Tail(t, data, encodeNulls))
      else if t == TUnknown || |data| < Size(t) then Undefined
      else Prepend(Swapped(t, data[..Size(t)]), Encode(all, todo[1..], data[Size(t)..], encodeNulls))
  }

  // ----- Exactly when the interpreter is defined -----

  /** The bytes the tokens take before the format ends or a pass is over. */
  function FixedSize(ts: seq<Token>): nat {
    if ts == [] || Ends(ts[0]) then 0 else Size(ts[0]) + FixedSize(ts[1..])
  }

  predicate Terminated(ts: seq<Token>) {
    ts != [] && (Ends(ts[0]) || Terminated(ts[1..]))
  }

  /** No unknown symbol before the format ends. */
  predicate Known(ts: seq<Token>) {
    ts == [] || Ends(ts[0]) || (ts[0] != TUnknown && Known(ts[1..]))
  }

  /** The data is long enough for a format that ends, and whole records otherwise. */
  predicate FitsData(ts: seq<Token>, n: nat) {
    || n == 0
    || (ts != [] && Known(ts) &&
        if Terminated(ts) then n >= FixedSize(ts) else FixedSize(ts) > 0 && n % FixedSize(ts) == 0)
  }

  /** The rest of a pass is defined exactly when its tokens are known and the data reaches. */
  lemma {:induction false} PassDefined(all: seq<Token>, todo: seq<Token>, data: seq<Byte>, nulls: bool)
    requires todo != []
    ensures Terminated(todo) ==>
              (Encode(all, todo, data, nulls).Encoded? <==> Known(todo) && |data| >= FixedSize(todo))
    ensures !Terminated(todo) ==>
              (Encode(all, todo, data, nulls).Encoded? <==>
                 Known(todo) && |data| >= FixedSize(todo)
                 && Encode(all, [], data[FixedSize(todo)..], nulls).Encoded?)
    decreases |todo|
  {
    var t, rest := todo[0], todo[1..];
    assert rest == [] ==> !Terminated(rest) && FixedSize(rest) == 0 && Known(rest);
    if !Ends(t) && t != TUnknown && |data| >= Size(t) {
      assert Terminated(todo) <==> Terminated(rest);
      assert Known(todo) <==> Known(rest);
      assert FixedSize(todo) == Size(t) + FixedSize(rest);
      assert Encode(all, todo, data, nulls).Encoded? <==> Encode(all, rest, data[Size(t)..], nulls).Encoded?;
      if rest != [] {
        PassDefined(all, rest, data[Size(t)..], nulls);
      }
      if |data| >= FixedSize(todo) {
        assert data[Size(t)..][FixedSize(todo[1..])..] == data[FixedSize(todo)..];
      }
    }
  }

  lemma PassStarts(ts: seq<Token>, data: seq<Byte>, nulls: bool)
    ensures data == [] ==> Encode(ts, [], data, nulls) == Encoded([])
    ensures data != [] && ts == [] ==> Encode(ts, [], data, nulls) == Undefined
    ensures data != [] && ts != [] ==> Encode(ts, [], data, nulls) == Encode(ts, ts, data, nulls)
  {
  }

  /** The interpreter is defined exactly when the data fits the format. */
  lemma {:induction false} EncodeDefined(ts: seq<Token>, data: seq<Byte>, nulls: bool)
    ensures Encode(ts, [], data, nulls).Encoded? <==> FitsData(ts, |data|)
    decreases |data|
  {
    hide Encode, Known, Terminated, FixedSize;
    PassStarts(ts, data, nulls);
    if data != [] && ts != [] {
      PassDefined(ts, ts, data, nulls);
      if !Terminated(ts) && Known(ts) {
        KnownTakesSpace(ts);
        if |data| >= FixedSize(ts) {
          EncodeDefined(ts, data[FixedSize(ts)..], nulls);
          RemainderOfRest(|data|, FixedSize(ts));
        } else {
          SmallRemainder(|data|, FixedSize(ts));
        }
      }
    }
  }

  lemma KnownTakesSpace(ts: seq<Token>)
    requires ts != [] && Known(ts) && !Terminated(ts)
    ensures FixedSize(ts) > 0
  {
  }

  /** One step of the interpreter over a token of fixed size. */
  lemma EncodeStep(all: seq<Token>, t: Token, todo: seq<Token>, head: seq<Byte>, rest: seq<Byte>, out: seq<Byte>,
                   nulls: bool)
    requires !Ends(t) && t != TUnknown && |head| == Size(t)
    requires Encode(all, todo, rest, nulls) == Encoded(out)
    ensures Encode(all, [t] + todo, head + rest, nulls) == Encoded(Swapped(t, head) + out)
  {
    assert ([t] + todo)[1..] == todo;
    assert (head + rest)[..Size(t)] == head && (head + rest)[Size(t)..] == rest;
  }

  // ----- How much the interpreter writes -----

  /** The token that ends the format. */
  function Ending(ts: seq<Token>): (t: Token)
    requires Terminated(ts)
    ensures Ends(t)
  {
    if Ends(ts[0]) then ts[0] else Ending(ts[1..])
  }

  /** The bytes written, nulls filled in, for data that fits the format. */
  function WrittenLength(ts: seq<Token>, data: seq<Byte>): nat {
    if !Terminated(ts) || data == [] || |data| < FixedSize(ts) then |data|
    else
      FixedSize(ts)
      + match Ending(ts)
        case TOptionalUid => 6
        case TAscii => StringLength(data[FixedSize(ts)..], ASCII_MAX) + 1
        case TStop => 0
  }

  lemma {:induction false} PassLength(all: seq<Token>, todo: seq<Token>, data: seq<Byte>)
    requires Encode(all, todo, data, true).Encoded? && (!Terminated(todo) ==> !Terminated(all))
    requires todo == [] ==> data == [] || !Terminated(all)
    ensures |Encode(all, todo, data, true).out|
         == if Terminated(todo) && data == [] then |Tail(Ending(todo), data, true)| else WrittenLength(todo, data)
    decreases |data|, if todo == [] then 1 else 0
  {
    if todo == [] {
      if data != [] {
        PassLength(all, all, data);
      }
    } else if !Ends(todo[0]) {
      var n := Size(todo[0]);
      PassLength(all, todo[1..], data[n..]);
      if |data| >= FixedSize(todo) {
        assert data[n..][FixedSize(todo[1..])..] == data[FixedSize(todo)..];
      }
    } else {
      assert data[0..] == data;
    }
  }

  /** What the interpreter writes is as long as that. */
  lemma EncodedLength(ts: seq<Token>, data: seq<Byte>)
    requires Encode(ts, [], data, true).Encoded?
    ensures |Encode(ts, [], data, true).out| == WrittenLength(ts, data)
  {
    PassStarts(ts, data, true);
    if data != [] {
      PassLength(ts, ts, data);
    }
  }

  // ----- The round trip -----

  /** What comes back from the wire: the data, with literals, a full optional UID and a terminated string. */
  function Restored(all: seq<Token>, todo: seq<Token>, data: seq<Byte>): seq<Byte>
    requires Encode(all, todo, data, false).Encoded?
    decreases |data|, if todo == [] then 1 else 0
  {
    if todo == [] then
      if data == [] then [] else Restored(all, all, data)
    else
      var t := todo[0];
      if Ends(t) then RestoredTail(t, data)
      else
        (if t.TLiteral? then [t.value] else data[..Size(t)]) + Restored(all, todo[1..], data[Size(t)..])
  }

  function RestoredTail(t: Token, data: seq<Byte>): seq<Byte>
    requires Ends(t)
  {
    match t
    case TOptionalUid => if |data| < 6 then NULL_UID else data[..6]
    case TAscii => data[..StringLength(data, ASCII_MAX)] + [0]
    case TStop => []
  }

  lemma TailRoundTrip(t: Token, data: seq<Byte>)
    requires Ends(t)
    ensures Tail(t, Tail(t, data, false), true) == RestoredTail(t, data)
  {
    match t
    case TOptionalUid =>
      if |data| >= 6 {
        if IsNullUid(data) {
          assert data[..6] == NULL_UID;
        } else {
          var i :| 0 <= i < 6 && data[i] != 0;
          assert data[i] in SwapUid(data[..6]);
          assert SwapUid(data[..6])[..6] == SwapUid(data[..6]);
        }
      }
    case TAscii =>
      var s := data[..StringLength(data, ASCII_MAX)];
      assert s + [] == s;
      assert StringLength(s, ASCII_MAX) == |s|;
      assert s[..|s|] == s;
    case TStop =>
  }

  /** Encoding what was encoded, with nulls filled in, restores the data. */
  lemma {:induction false} EncodeRoundTrip(all: seq<Token>, todo: seq<Token>, data: seq<Byte>)
    requires Encode(all, todo, data, false).Encoded?
    requires todo != [] && !Terminated(todo) ==> !Terminated(all)
    requires todo == [] && Terminated(all) && data != [] ==> Encode(all, todo, data, false).out != []
    ensures Encode(all, todo, Encode(all, todo, data, false).out, true) == Encoded(Restored(all, todo, data))
    decreases |data|, if todo == [] then 1 else 0
  {
    if todo == [] {
      if data != [] {
        EncodeRoundTrip(all, all, data);
      }
    } else {
      var t := todo[0];
      if Ends(t) {
        TailRoundTrip(t, data);
      } else {
        var head, rest := data[..Size(t)], data[Size(t)..];
        EncodeRoundTrip(all, todo[1..], rest);
        SwappedTwice(t, head);
        EncodeStep(all, t, todo[1..], Swapped(t, head), Encode(all, todo[1..], rest, false).out,
                   Restored(all, todo[1..], rest), true);
        assert [t] + todo[1..] == todo;
      }
    }
  }

  lemma SwappedTwice(t: Token, s: seq<Byte>)
    requires |s| == Size(t)
    ensures Swapped(t, Swapped(t, s)) == if t.TLiteral? then [t.value] else s
  {
  }

  /** A format of fixed tokens without literals, with or without a final '$'. */
  predicate Plain(ts: seq<Token>) {
    ts == [] || ts == [TStop] || (!Ends(ts[0]) && ts[0] != TUnknown && !ts[0].TLiteral? && Plain(ts[1..]))
  }

  lemma TakeTwice(data: seq<Byte>, m: nat, n: nat)
    requires m + n <= |data|
    ensures data[..m] + data[m..][..n] == data[..m + n]
  {
  }

  /** What a plain token restores is what it was given. */
  lemma PlainStep(all: seq<Token>, todo: seq<Token>, data: seq<Byte>)
    requires Plain(todo) && todo != [] && !Ends(todo[0]) && Encode(all, todo, data, false).Encoded?
    ensures |data| >= Size(todo[0]) >= 1 && Plain(todo[1..])
    ensures Encode(all, todo[1..], data[Size(todo[0])..], false).Encoded?
    ensures Restored(all, todo, data)
         == data[..Size(todo[0])] + Restored(all, todo[1..], data[Size(todo[0])..])
  {
  }

  /** Under a plain format with a '$' one record comes back unchanged. */
  lemma {:induction false} PlainRecordRestores(all: seq<Token>, todo: seq<Token>, data: seq<Byte>)
    requires Plain(todo) && Terminated(todo) && Encode(all, todo, data, false).Encoded?
    ensures |data| >= FixedSize(todo) && Restored(all, todo, data) == data[..FixedSize(todo)]
    decreases |todo|
  {
    if !Ends(todo[0]) {
      PlainStep(all, todo, data);
      hide Encode, Restored, Plain;
      PlainRecordRestores(all, todo[1..], data[Size(todo[0])..]);
      TakeTwice(data, Size(todo[0]), FixedSize(todo[1..]));
    }
  }

  /** Under a plain format without one all records come back unchanged. */
  lemma {:induction false} PlainDataRestores(all: seq<Token>, todo: seq<Token>, data: seq<Byte>)
    requires Plain(all) && !Terminated(all) && Plain(todo) && !Terminated(todo)
    requires Encode(all, todo, data, false).Encoded?
    ensures Restored(all, todo, data) == data
    decreases |data|, if todo == [] then 1 else 0
  {
    if todo == [] {
      if data != [] {
        PlainDataRestores(all, all, data);
      }
    } else {
      PlainStep(all, todo, data);
      hide Encode, Restored, Plain;
      PlainDataRestores(all, todo[1..], data[Size(todo[0])..]);
      assert data[..Size(todo[0])] + data[Size(todo[0])..] == data;
    }
  }

  /** A plain format takes the same bytes on the wire as in memory. */
  lemma {:induction false} PlainLength(all: seq<Token>, todo: seq<Token>, data: seq<Byte>, nulls: bool)
    requires Plain(all) && Plain(todo) && Encode(all, todo, data, nulls).Encoded?
    requires Terminated(todo) || (!Terminated(todo) && !Terminated(all))
    ensures |Encode(all, todo, data, nulls).out| == if Terminated(todo) then FixedSize(todo) else |data|
    decreases |data|, if todo == [] then 1 else 0
  {
    if todo == [] {
      if data != [] {
        PlainLength(all, all, data, nulls);
      }
    } else if !Ends(todo[0]) {
      PlainLength(all, todo[1..], data[Size(todo[0])..], nulls);
    }
  }

  /** The interpreter's first step, taken apart. */
  lemma EncodeHead(all: seq<Token>, todo: seq<Token>, data: seq<Byte>, nulls: bool)
    requires todo != [] && !Ends(todo[0]) && Encode(all, todo, data, nulls).Encoded?
    ensures var m := Size(todo[0]);
            && todo[0] != TUnknown && m <= |data| && Encode(all, todo[1..], data[m..], nulls).Encoded?
            && Encode(all, todo, data, nulls).out
               == Swapped(todo[0], data[..m]) + Encode(all, todo[1..], data[m..], nulls).out
  {
  }

  /** Under a plain format without a '$' the first bytes are encoded to the first bytes. */
  lemma {:induction false} PlainPrefix(all: seq<Token>, todo: seq<Token>, data: seq<Byte>, n: nat, nulls: bool)
    requires Plain(all) && Plain(todo) && !Terminated(all) && !Terminated(todo) && n <= |data|
    requires Encode(all, todo, data, nulls).Encoded? && Encode(all, todo, data[..n], nulls).Encoded?
    ensures n <= |Encode(all, todo, data, nulls).out|
    ensures Encode(all, todo, data[..n], nulls).out == Encode(all, todo, data, nulls).out[..n]
    decreases |data|, if todo == [] then 1 else 0
  {
    hide Encode, Swapped;
    PassStarts(all, data, nulls);
    PassStarts(all, data[..n], nulls);
    if todo == [] {
      if n > 0 {
        PlainPrefix(all, all, data, n, nulls);
      }
    } else {
      var m := Size(todo[0]);
      EncodeHead(all, todo, data, nulls);
      EncodeHead(all, todo, data[..n], nulls);
      assert data[..n][..m] == data[..m] && data[..n][m..] == data[m..][..n - m];
      PlainPrefix(all, todo[1..], data[m..], n - m, nulls);
    }
  }

  /** A plain format that takes data of exactly n bytes: one record, or several under a format without a '$'. */
  predicate PlainFor(format: string, n: nat) {
    && CheckFrom(format, 0) == Valid && Plain(Tokens(format))
    && if Terminated(Tokens(format)) then FixedSize(Tokens(format)) == n
       else FixedSize(Tokens(format)) > 0 && n % FixedSize(Tokens(format)) == 0
  }

  lemma {:induction false} PlainKnown(ts: seq<Token>)
    requires Plain(ts)
    ensures Known(ts)
  {
    if ts != [] && !Ends(ts[0]) {
      PlainKnown(ts[1..]);
    }
  }

  /** Under a plain format that takes it, data is encoded to as many bytes and restored unchanged. */
  lemma PlainForRoundTrip(format: string, data: seq<Byte>)
    requires data != [] && PlainFor(format, |data|)
    ensures var ts := Tokens(format);
            && Encode(ts, [], data, false).Encoded?
            && |Encode(ts, [], data, false).out| == |data|
            && Restored(ts, [], data) == data
  {
    var ts := Tokens(format);
    ValidFormatsKnown(format, 0);
    PlainKnown(ts);
    EncodeDefined(ts, data, false);
    PassStarts(ts, data, false);
    hide Encode, Tokens, CheckFrom, FixedSize, Known;
    if Terminated(ts) {
      PlainLength(ts, ts, data, false);
      PlainRecordRestores(ts, ts, data);
      RestoredPass(ts, data);
      assert data[..|data|] == data;
    } else {
      PlainLength(ts, [], data, false);
      PlainDataRestores(ts, [], data);
    }
  }

  lemma RestoredPass(ts: seq<Token>, data: seq<Byte>)
    requires ts != [] && data != [] && Encode(ts, [], data, false).Encoded?
    ensures Encode(ts, ts, data, false).Encoded? && Restored(ts, [], data) == Restored(ts, ts, data)
  {
  }

  // ----- The interpreter, as the loop that runs it -----

  lemma PrependTwice(a: seq<Byte>, b: seq<Byte>, r: Outcome)
    ensures Prepend(a, Prepend(b, r)) == Prepend(a + b, r)
  {
    if r.Encoded? {
      assert a + (b + r.out) == (a + b) + r.out;
    }
  }

  /** `rdm_format_encode`: walks the format once for each record of the data. */
  method FormatEncode(format: string, src: seq<Byte>, encodeNulls: bool) returns (r: Outcome)
    ensures r == Encode(Tokens(format), [], src, encodeNulls)
  {
    hide Tail, Swapped;
    var ts := Tokens(format);
    var encoded: seq<Byte> := [];
    var data := src;
    while |data| > 0
      invariant Encode(ts, [], src, encodeNulls) == Prepend(encoded, Encode(ts, [], data, encodeNulls))
      decreases |data|
    {
      if ts == [] {
        return Undefined;     // no token makes progress
      }
      var before := data;
      var f := 0;
      assert format[0..] == format;
      while f < |format|
        invariant 0 <= f <= |format|
        invariant |data| < |before| || (data == before && Tokens(format[f..]) == ts)
        invariant Encode(ts, [], src, encodeNulls)
               == Prepend(encoded, Encode(ts, Tokens(format[f..]), data, encodeNulls))
      {
        var rest := format[f..];
        if format[f] == ' ' {
          assert rest[1..] == format[f + 1..];
          f := f + 1;
        } else {
          var t := TokenAt(rest);
          assert rest[Width(rest)..] == format[f + Width(rest)..];
          assert Tokens(rest)[1..] == Tokens(format[f + Width(rest)..]);
          if Ends(t) {
            return Encoded(encoded + Tail(t, data, encodeNulls));
          }
          if t == TUnknown || |data| < Size(t) {
            return Undefined;
          }
          PrependTwice(encoded, Swapped(t, data[..Size(t)]),
                       Encode(ts, Tokens(rest)[1..], data[Size(t)..], encodeNulls));
          encoded := encoded + Swapped(t, data[..Size(t)]);
          data := data[Size(t)..];
          f := f + Width(rest);
        }
      }
    }
    return Encoded(encoded);
  }

  // ----- Validity -----

  datatype Validity = Valid | Invalid | DividesByZero

  /** The size of the symbol c for the validity test, which takes either case; None for an unknown one. */
  datatype SymbolSize = NoSymbol | SymbolSize(n: nat, ends: bool)

  function SymbolSizeOf(c: char): SymbolSize {
    match c
    case 'b' => SymbolSize(1, false)
    case 'B' => SymbolSize(1, false)
    case 'w' => SymbolSize(2, false)
    case 'W' => SymbolSize(2, false)
    case 'd' => SymbolSize(4, false)
    case 'D' => SymbolSize(4, false)
    case 'u' => SymbolSize(6, false)
    case 'U' => SymbolSize(6, false)
    case 'x' => SymbolSize(1, false)
    case 'X' => SymbolSize(1, false)
    case 'v' => SymbolSize(6, true)
    case 'V' => SymbolSize(6, true)
    case 'a' => SymbolSize(32, true)
    case 'A' => SymbolSize(32, true)
    case '$' => SymbolSize(0, true)
    case _ => NoSymbol
  }

  predicate IsLiteralSymbol(c: char) {
    c == 'x' || c == 'X'
  }

  /** `rdm_format_is_valid` on the rest of a format, with `size` bytes counted so far. */
  function CheckFrom(format: string, size: nat): Validity {
    if format == [] then (if size == 0 then DividesByZero else Valid)
    else if format[0] == ' ' then CheckFrom(format[1..], size)
    else
      match SymbolSizeOf(format[0])
      case NoSymbol => Invalid
      case SymbolSize(n, ends) =>
        var width := if IsLiteralSymbol(format[0]) then 3 else 1;
        if width == 3 && !(|format| >= 3 && IsHexDigit(format[1]) && IsHexDigit(format[2])) then Invalid
        else if size + n > PDL_MAX then Invalid
        else if ends then
          if |format| > 1 && format[1] != '$' then Invalid
          else if size + n > 0 then Valid else Invalid
        else CheckFrom(format[width..], size + n)
  }

  /** `rdm_format_is_valid`: the scan over a format string that is not null. */
  method FormatIsValid(format: string) returns (v: Validity)
    ensures v == CheckFrom(format, 0)
  {
    var size, f := 0, 0;
    assert format[0..] == format;
    while f < |format|
      invariant 0 <= f <= |format| && 0 <= size <= PDL_MAX
      invariant CheckFrom(format, 0) == CheckFrom(format[f..], size)
    {
      var rest := format[f..];
      if format[f] == ' ' {
        assert rest[1..] == format[f + 1..];
        f := f + 1;
      } else {
        var s := SymbolSizeOf(format[f]);
        if s.NoSymbol? {
          return Invalid;
        }
        var width := if IsLiteralSymbol(format[f]) then 3 else 1;
        if width == 3 && !(f + 2 < |format| && IsHexDigit(format[f + 1]) && IsHexDigit(format[f + 2])) {
          return Invalid;
        }
        assert rest[width..] == format[f + width..];
        size := size + s.n;
        if size > PDL_MAX {
          return Invalid;
        }
        if s.ends {
          return if f + 1 < |format| && format[f + 1] != '$' then Invalid
                 else if size > 0 then Valid else Invalid;
        }
        f := f + width;
      }
    }
    if size == 0 {
      return DividesByZero;
    }
    var largest := PDL_MAX - PDL_MAX % size;
    return if largest > 0 then Valid else Invalid;
  }

  /** No token before the end of the format is written in upper case. */
  predicate LowerCase(format: string) {
    || format == []
    || (format[0] == ' ' && LowerCase(format[1..]))
    || (format[0] != ' ' && !('A' <= format[0] <= 'Z')
        && (Ends(TokenAt(format)) || LowerCase(format[Width(format)..])))
  }

  /**
   * The interpreter knows every token of a valid format exactly when the
   * format is in lower case: the case conversion of the interpreter turns an
   * upper-case token into a symbol it does not know.
   */
  lemma {:induction false} ValidFormatsKnown(format: string, size: nat)
    requires CheckFrom(format, size) == Valid && size <= PDL_MAX
    ensures Known(Tokens(format)) <==> LowerCase(format)
    ensures Known(Tokens(format)) ==> size + FixedSize(Tokens(format)) <= PDL_MAX
    ensures size == 0 ==> Tokens(format) != []
    decreases |format|
  {
    if format != [] {
      if format[0] == ' ' {
        ValidFormatsKnown(format[1..], size);
      } else {
        var t, rest := TokenAt(format), format[Width(format)..];
        assert Tokens(format)[0] == t && Tokens(format)[1..] == Tokens(rest);
        if !Ends(t) && t != TUnknown {
          ValidFormatsKnown(rest, size + Size(t));
        }
      }
    }
  }

  /**
   * For a valid format the interpreter is defined on data exactly when the
   * format is in lower case and the data fits it.
   */
  lemma ValidFormatDefined(format: string, data: seq<Byte>, nulls: bool)
    requires CheckFrom(format, 0) == Valid && data != []
    ensures Encode(Tokens(format), [], data, nulls).Encoded? <==>
              && LowerCase(format)
              && (if Terminated(Tokens(format)) then |data| >= FixedSize(Tokens(format))
                  else FixedSize(Tokens(format)) > 0 && |data| % FixedSize(Tokens(format)) == 0)
  {
    ValidFormatsKnown(format, 0);
    EncodeDefined(Tokens(format), data, nulls);
  }

  /** What the validity test counts for the token that ends a format. */
  function EndSize(t: Token): nat {
    if t.TOptionalUid? then 6 else if t.TAscii? then ASCII_MAX else 0
  }

  lemma {:induction false} ValidFormatsBounded(format: string, size: nat)
    requires CheckFrom(format, size) == Valid && Known(Tokens(format)) && Terminated(Tokens(format))
    ensures size + FixedSize(Tokens(format)) + EndSize(Ending(Tokens(format))) <= PDL_MAX
    decreases |format|
  {
    if format[0] == ' ' {
      ValidFormatsBounded(format[1..], size);
    } else {
      var t, rest := TokenAt(format), format[Width(format)..];
      assert Tokens(format)[0] == t && Tokens(format)[1..] == Tokens(rest);
      if !Ends(t) {
        ValidFormatsBounded(rest, size + Size(t));
      }
    }
  }

  /** What follows the token that ends the format. */
  function AfterEnd(format: string): string {
    if format == [] then []
    else if format[0] == ' ' then AfterEnd(format[1..])
    else if Ends(TokenAt(format)) then format[1..]
    else AfterEnd(format[Width(format)..])
  }

  /** The bytes a format takes at most: its fixed tokens, and 6 or 32 for what ends it. */
  function FullSize(ts: seq<Token>): nat {
    FixedSize(ts) + if Terminated(ts) then EndSize(Ending(ts)) else 0
  }

  /**
   * A format of known tokens is valid exactly if it takes 1 to 231 bytes and
   * nothing but a '$' comes right behind the token that ends it.
   */
  lemma {:induction false} ValidExactly(format: string, size: nat)
    requires Known(Tokens(format)) && size <= PDL_MAX
    ensures CheckFrom(format, size) == Valid <==>
              && 0 < size + FullSize(Tokens(format)) <= 231
              && (AfterEnd(format) == [] || AfterEnd(format)[0] == '$')
    decreases |format|
  {
    if format != [] {
      if format[0] == ' ' {
        ValidExactly(format[1..], size);
      } else {
        var t, rest := TokenAt(format), format[Width(format)..];
        assert Tokens(format)[0] == t && Tokens(format)[1..] == Tokens(rest);
        if !Ends(t) && size + Size(t) <= PDL_MAX {
          ValidExactly(rest, size + Size(t));
        }
      }
    }
  }

  /** 199 bytes of fixed tokens and a string of 32 bytes: the terminator is byte 232. */
  predicate Overruns(ts: seq<Token>, data: seq<Byte>) {
    && Terminated(ts) && Ending(ts) == TAscii && FixedSize(ts) == PDL_MAX - ASCII_MAX
    && |data| == PDL_MAX && 0 !in data[FixedSize(ts)..]
  }

  /** Under a valid format, data of up to 231 bytes that fits is read into 231 bytes except exactly then. */
  lemma OverrunsExactly(format: string, data: seq<Byte>)
    requires CheckFrom(format, 0) == Valid && FitsData(Tokens(format), |data|) && |data| <= PDL_MAX
    ensures Encode(Tokens(format), [], data, true).Encoded?
    ensures |Encode(Tokens(format), [], data, true).out| > PDL_MAX <==> Overruns(Tokens(format), data)
  {
    var ts := Tokens(format);
    EncodeDefined(ts, data, true);
    hide Encode, Tokens, CheckFrom;
    EncodedLength(ts, data);
    if Terminated(ts) && data != [] {
      ValidFormatsBounded(format, 0);
      var rest := data[FixedSize(ts)..];
      var n := StringLength(rest, ASCII_MAX);
      assert n < |rest| ==> rest[n] in rest;
    }
  }

  /** A format of n UIDs, a byte and a string. */
  function UidsThenText(n: nat): string {
    if n == 0 then "ba" else "u" + UidsThenText(n - 1)
  }

  lemma {:induction false} UidsThenTextRead(n: nat, size: nat)
    requires size + 6 * n + 1 + ASCII_MAX <= PDL_MAX
    ensures var format := UidsThenText(n);
            && CheckFrom(format, size) == Valid && Known(Tokens(format)) && Terminated(Tokens(format))
            && FixedSize(Tokens(format)) == 6 * n + 1 && Ending(Tokens(format)) == TAscii
    decreases n
  {
    var format := UidsThenText(n);
    if n == 0 {
      ByteThenText(size);
    } else {
      UidsThenTextRead(n - 1, size + 6);
      var rest := UidsThenText(n - 1);
      assert format[1..] == rest;
      assert Tokens(format) == [TUid] + Tokens(rest) && CheckFrom(format, size) == CheckFrom(rest, size + 6);
      hide Tokens, CheckFrom, UidsThenText;
      assert Tokens(format)[1..] == Tokens(rest);
    }
  }

  lemma ByteThenText(size: nat)
    requires size + 1 + ASCII_MAX <= PDL_MAX
    ensures Tokens("ba") == [TByte, TAscii] && CheckFrom("ba", size) == Valid
    ensures var ts := Tokens("ba"); Known(ts) && Terminated(ts) && FixedSize(ts) == 1 && Ending(ts) == TAscii
  {
    assert "ba"[1..] == "a" && "a"[1..] == "";
    assert Tokens("a") == [TAscii] && Tokens("ba") == [TByte, TAscii];
    var ts := [TByte, TAscii];
    assert ts[1..] == [TAscii];
  }

  /** Such a format exists: 33 UIDs, a byte and a string. */
  lemma OverrunExists(data: seq<Byte>) returns (format: string)
    requires |data| == PDL_MAX && 0 !in data
    ensures CheckFrom(format, 0) == Valid && FitsData(Tokens(format), |data|)
    ensures Encode(Tokens(format), [], data, true).Encoded?
    ensures |Encode(Tokens(format), [], data, true).out| == PDL_MAX + 1
  {
    var n: nat :| n == 33;     // not a literal, which would be unfolded
    format := UidsThenText(n);
    UidsThenTextRead(n, 0);
    hide UidsThenText, CheckFrom, Tokens, Encode, Known, Terminated, FixedSize;
    assert 0 !in data[FixedSize(Tokens(format))..];
    OverrunsExactly(format, data);
    EncodedLength(Tokens(format), data);
  }

  /** The validity test divides by zero exactly on formats of nothing but spaces. */
  lemma {:induction false} DividesByZeroExactly(format: string, size: nat)
    ensures CheckFrom(format, size) == DividesByZero <==>
              size == 0 && forall i :: 0 <= i < |format| ==> format[i] == ' '
    decreases |format|
  {
    if format != [] {
      if format[0] == ' ' {
        DividesByZeroExactly(format[1..], size);
        assert forall i :: 1 <= i < |format| ==> format[i] == format[1..][i - 1];
      } else if SymbolSizeOf(format[0]).SymbolSize? {
        var s, width := SymbolSizeOf(format[0]), if IsLiteralSymbol(format[0]) then 3 else 1;
        if !s.ends && width <= |format| {
          DividesByZeroExactly(format[width..], size + s.n);
        }
      }
    }
  }

  /** An upper-case token passes the validity test, and the interpreter does not know it. */
  lemma UpperCaseTokenUndefined()
    ensures CheckFrom("W$", 0) == Valid
    ensures Encode(Tokens("W$"), [], [1, 2], false) == Undefined
    ensures Encode(Tokens("w$"), [], [1, 2], false) == Encoded([2, 1])
  {
    assert "w$"[1..] == "$" && "W$"[1..] == "$" && "$"[1..] == "";
    assert Tokens("$") == [TStop];
    assert Tokens("w$") == [TWord, TStop] && Tokens("W$") == [TUnknown, TStop];
    var data: seq<Byte> := [1, 2];
    assert data[..2] == data;
  }
}
