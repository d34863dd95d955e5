/**
 * Text <-> byte conversions of src/hnet_decoder.py: the uppercase `%02X`
 * dump written to the logs (base16 in the sense of section 8 of RFC 4648),
 * the hex branch of `_on_message`, and the helper `_hex_string_to_int_array`.
 * Both parsers hand each slice `s[i:i+2]` to Python's `int(pair, 16)`,
 * which is modelled here for the one- and two-character slices they pass.
 */
module Hex {

  import opened Wrappers
  import opened Bytes
  import opened Text

  datatype HexError =
    | OddLength                              // "La stringa esadecimale deve avere lunghezza pari"
    | InvalidPair(pair: string, position: nat) // "Caratteri non validi trovati: '<pair>' alla posizione <i>"

  // ------------------------------------------------------------ hex digits

  predicate IsHexDigit(c: char)
  {
    ('0' <= c <= '9') || ('a' <= c <= 'f') || ('A' <= c <= 'F')
  }

  function HexValue(c: char): (v: nat)
    requires IsHexDigit(c)
    ensures v < 16
  {
    if '0' <= c <= '9' then c as int - '0' as int
    else if 'a' <= c <= 'f' then c as int - 'a' as int + 10
    else c as int - 'A' as int + 10
  }

  function UpperDigit(d: nat): (c: char)
    requires d < 16
    ensures IsHexDigit(c) && HexValue(c) == d && !('a' <= c <= 'z')
  {
    "0123456789ABCDEF"[d]
  }

  function LowerDigit(d: nat): (c: char)
    requires d < 16
    ensures IsHexDigit(c) && HexValue(c) == d
  {
    "0123456789abcdef"[d]
  }

  /** `f'{b:02X}'`: two uppercase hex digits, high nibble first. */
  function Hex2(b: byte): string
  {
    [UpperDigit(b / 16), UpperDigit(b % 16)]
  }

  /** The same two digits in lower case, which the parsers also accept. */
  function Hex2Lower(b: byte): string
  {
    [LowerDigit(b / 16), LowerDigit(b % 16)]
  }

  /** `' '.join([f'{b:02X}' for b in frame])`, the dump at src/hnet_decoder.py:567 and :574. */
  function Dump(frame: seq<byte>): string
  {
    if |frame| == 0 then ""
    else if |frame| == 1 then Hex2(frame[0])
    else Hex2(frame[0]) + " " + Dump(frame[1..])
  }

  /** The dump without separators, as the bus bridge sends frames (`"211006B1..."`). */
  function Compact(frame: seq<byte>, upper: bool): string
  {
    if |frame| == 0 then ""
    else (if upper then Hex2(frame[0]) else Hex2Lower(frame[0])) + Compact(frame[1..], upper)
  }

  // ------------------------------------------------------ int(pair, 16)

  /**
   * Python's `int(p, 16)` for a slice of one or two characters: two hex digits,
   * one hex digit, a sign followed by a digit, or a digit with whitespace on
   * either side (which `int` strips). Anything else raises ValueError (None).
   */
  function PythonHexInt(p: string): Option<int>
  {
    if |p| == 1 then
      if IsHexDigit(p[0]) then Some(HexValue(p[0])) else None
    else if |p| == 2 then
      if IsHexDigit(p[0]) && IsHexDigit(p[1]) then Some(16 * HexValue(p[0]) + HexValue(p[1]))
      else if p[0] == '+' && IsHexDigit(p[1]) then Some(HexValue(p[1]))
      else if p[0] == '-' && IsHexDigit(p[1]) then Some(0 - HexValue(p[1]))
      else if IsSpace(p[0]) && IsHexDigit(p[1]) then Some(HexValue(p[1]))
      else if IsHexDigit(p[0]) && IsSpace(p[1]) then Some(HexValue(p[0]))
      else None
    else None
  }

  /** The slice `s[0:2]`: two characters, or the one left at the end of an odd string. */
  function FirstPair(s: string): string
    requires |s| > 0
  {
    if |s| >= 2 then s[..2] else s
  }

  /** Prepend already decoded values to a result, keeping an error as it is. */
  function Prefixed(acc: seq<int>, r: Result<seq<int>, HexError>): Result<seq<int>, HexError>
  {
    match r
    case Success(v) => Success(acc + v)
    case Failure(e) => Failure(e)
  }

  /**
   * The loop `for i in range(0, len(s), 2): result.append(int(s[i:i+2], 16))`
   * run over `s`, whose first character sits at position `offset` of the whole string.
   */
  function PairsFrom(s: string, offset: nat): Result<seq<int>, HexError>
    decreases |s|
  {
    if |s| == 0 then Success([])
    else
      var p := FirstPair(s);
      match PythonHexInt(p)
      case None => Failure(InvalidPair(p, offset))
      case Some(v) => Prefixed([v], PairsFrom(s[|p|..], offset + 2))
  }

  lemma PrefixedAssoc(a: seq<int>, b: seq<int>, r: Result<seq<int>, HexError>)
    ensures Prefixed(a, Prefixed(b, r)) == Prefixed(a + b, r)
  {
    if r.Success? {
      assert a + (b + r.value) == (a + b) + r.value;
    }
  }

  /** One step of the loop: the pair at index `i` and the rest of the string. */
  lemma PairsFromStep(s: string, i: nat)
    requires i < |s|
    ensures var p := FirstPair(s[i..]);
      p == s[i..if i + 2 <= |s| then i + 2 else |s|] &&
      PairsFrom(s[i..], i) ==
        match PythonHexInt(p)
        case None => Failure(InvalidPair(p, i))
        case Some(v) => Prefixed([v], PairsFrom(s[(if i + 2 <= |s| then i + 2 else |s|)..], i + 2))
  {
    var p := FirstPair(s[i..]);
    assert s[i..][|p|..] == s[(if i + 2 <= |s| then i + 2 else |s|)..];
  }

  function Clamp(i: nat, n: nat): nat
  {
    if i <= n then i else n
  }

  lemma PrefixedNothing(r: Result<seq<int>, HexError>)
    ensures Prefixed([], r) == r
  {
    if r.Success? {
      assert [] + r.value == r.value;
    }
  }

  /** The shared decoding loop of both parsers, over the whole string. */
  method DecodePairs(s: string) returns (r: Result<seq<int>, HexError>)
    ensures r == PairsFrom(s, 0)
  {
    var result: seq<int> := [];
    var i := 0;
    assert s[0..] == s;
    PrefixedNothing(PairsFrom(s, 0));
    while i < |s|
      invariant i <= |s| + 1 && i % 2 == 0
      invariant PairsFrom(s, 0) == Prefixed(result, PairsFrom(s[Clamp(i, |s|)..], i))
      decreases |s| - i
    {
      var hexPair := s[i..if i + 2 <= |s| then i + 2 else |s|];
      var decimalValue := PythonHexInt(hexPair);
      ghost var next := if i + 2 <= |s| then i + 2 else |s|;
      assert PairsFrom(s[Clamp(i, |s|)..], i) ==
        match decimalValue
        case None => Failure(InvalidPair(hexPair, i))
        case Some(v) => Prefixed([v], PairsFrom(s[next..], i + 2)) by {
        PairsFromStep(s, i);
      }
      if decimalValue.None? {
        return Failure(InvalidPair(hexPair, i));
      }
      PrefixedAssoc(result, [decimalValue.value], PairsFrom(s[next..], i + 2));
      result := result + [decimalValue.value];
      i := i + 2;
      assert Clamp(i, |s|) == next;
    }
    assert s[Clamp(i, |s|)..] == [];
    assert Prefixed(result, Success([])) == Success(result + []);
    assert result + [] == result;
    r := Success(result);
  }

  // ------------------------------------------------- the hex branch of _on_message

  /** `s` with trailing whitespace removed. */
  function TrimEnd(s: string): string
  {
    if |s| > 0 && IsSpace(s[|s| - 1]) then TrimEnd(s[..|s| - 1]) else s
  }

  /** The longest whitespace-free suffix of `s`. */
  function LastRun(s: string): string
  {
    if |s| > 0 && !IsSpace(s[|s| - 1]) then LastRun(s[..|s| - 1]) + [s[|s| - 1]] else ""
  }

  /** `payload.split()[-1]`, or None where Python raises IndexError (a blank payload). */
  function LastToken(payload: string): Option<string>
  {
    var t := TrimEnd(payload);
    if |t| == 0 then None else Some(LastRun(t))
  }

  /** The trimmed string is a prefix followed only by whitespace, and it ends in a non-space. */
  lemma {:induction false} TrimEndShape(s: string)
    ensures var t := TrimEnd(s);
      |t| <= |s| && t == s[..|t|] &&
      (forall i :: |t| <= i < |s| ==> IsSpace(s[i])) &&
      (|t| > 0 ==> !IsSpace(t[|t| - 1]))
    decreases |s|
  {
    if |s| > 0 && IsSpace(s[|s| - 1]) {
      var init := s[..|s| - 1];
      TrimEndShape(init);
      var t := TrimEnd(init);
      assert t == s[..|t|];
      forall i | |t| <= i < |s| ensures IsSpace(s[i]) {
        if i < |s| - 1 {
          assert s[i] == init[i];
        }
      }
    }
  }

  /** The last run is a whitespace-free suffix with whitespace (or nothing) before it. */
  lemma {:induction false} LastRunShape(s: string)
    ensures var t := LastRun(s);
      |t| <= |s| && t == s[|s| - |t|..] &&
      (forall i :: 0 <= i < |t| ==> !IsSpace(t[i])) &&
      (|t| < |s| ==> IsSpace(s[|s| - |t| - 1]))
    decreases |s|
  {
    if |s| > 0 && !IsSpace(s[|s| - 1]) {
      var init := s[..|s| - 1];
      var c := s[|s| - 1];
      LastRunShape(init);
      var t0 := LastRun(init);
      var k := |init| - |t0|;
      assert LastRun(s) == t0 + [c];
      assert t0 + [c] == s[k..] by {
        assert t0 == init[k..];
      }
      LastRunStep(t0, c);
      if k > 0 {
        assert s[k - 1] == init[k - 1];
      }
    }
  }

  /** A whitespace-free run stays whitespace-free when a non-space is appended. */
  lemma LastRunStep(t0: string, c: char)
    requires forall i :: 0 <= i < |t0| ==> !IsSpace(t0[i])
    requires !IsSpace(c)
    ensures forall i :: 0 <= i < |t0 + [c]| ==> !IsSpace((t0 + [c])[i])
  {
    forall i | 0 <= i < |t0 + [c]| ensures !IsSpace((t0 + [c])[i]) {
      if i < |t0| {
        assert (t0 + [c])[i] == t0[i];
      }
    }
  }

  /**
   * `payload` is `pre + tok + post` with `tok` a nonempty whitespace-free piece, only
   * whitespace after it and whitespace (or nothing) before it.
   */
  predicate TokenSplit(payload: string, pre: string, tok: string, post: string)
  {
    payload == pre + tok + post &&
    |tok| > 0 && (forall i :: 0 <= i < |tok| ==> !IsSpace(tok[i])) &&
    (forall i :: 0 <= i < |post| ==> IsSpace(post[i])) &&
    (|pre| > 0 ==> IsSpace(pre[|pre| - 1]))
  }

  /** There is no last token exactly when the payload is blank. */
  lemma LastTokenBlank(payload: string)
    ensures LastToken(payload).None? <==> forall i :: 0 <= i < |payload| ==> IsSpace(payload[i])
  {
    TrimEndShape(payload);
    var t := TrimEnd(payload);
    if |t| > 0 {
      assert payload[|t| - 1] == t[|t| - 1];
    }
  }

  /** A last token is nonempty and free of whitespace. */
  lemma LastTokenNoSpace(payload: string)
    ensures LastToken(payload).Some? ==>
      var tok := LastToken(payload).value;
      |tok| > 0 && forall i :: 0 <= i < |tok| ==> !IsSpace(tok[i])
  {
    TrimEndShape(payload);
    LastRunShape(TrimEnd(payload));
  }

  /** The last token is the final whitespace-free piece of the payload. */
  lemma LastTokenSound(payload: string)
    ensures LastToken(payload).Some? ==> exists pre, post :: TokenSplit(payload, pre, LastToken(payload).value, post)
  {
    var t := TrimEnd(payload);
    if |t| > 0 {
      var tok := LastRun(t);
      assert |t| <= |payload| by { TrimEndShape(payload); }
      assert |tok| <= |t| by { LastRunShape(t); }
      var post := payload[|t|..];
      var pre := t[..|t| - |tok|];
      assert payload == t + post && forall i :: 0 <= i < |post| ==> IsSpace(post[i]) by {
        TrimEndShape(payload);
        forall i | 0 <= i < |post| ensures IsSpace(post[i]) {
          assert post[i] == payload[|t| + i];
        }
      }
      assert t == pre + tok && |tok| > 0 && (forall i :: 0 <= i < |tok| ==> !IsSpace(tok[i]))
          && (|pre| > 0 ==> IsSpace(pre[|pre| - 1])) by {
        TrimEndShape(payload);
        LastRunShape(t);
        if |pre| > 0 {
          assert pre[|pre| - 1] == t[|t| - |tok| - 1];
        }
      }
      assert payload == pre + tok + post;
      assert TokenSplit(payload, pre, tok, post);
    }
  }

  /** Whatever precedes the last whitespace, only the final token is decoded. */
  lemma LastTokenOfJoin(head: string, sep: char, tok: string)
    requires IsSpace(sep) && |tok| > 0
    requires forall i :: 0 <= i < |tok| ==> !IsSpace(tok[i])
    ensures LastToken(head + [sep] + tok) == Some(tok)
  {
    var s := head + [sep] + tok;
    assert s[|s| - 1] == tok[|tok| - 1];
    assert TrimEnd(s) == s;
    forall i | |head| + 1 <= i < |s| ensures !IsSpace(s[i]) {
      assert s[i] == tok[i - |head| - 1];
    }
    LastRunOfSuffix(s, |head| + 1);
    assert s[|head| + 1..] == tok;
  }

  /** A whitespace-free run at the end of `s`, after a whitespace or the start, is its last run. */
  lemma LastRunOfSuffix(s: string, k: nat)
    requires k < |s| && (k > 0 ==> IsSpace(s[k - 1]))
    requires forall i :: k <= i < |s| ==> !IsSpace(s[i])
    ensures LastRun(s) == s[k..]
  {
    LastRunShape(s);
    var t := LastRun(s);
    forall j | |s| - |t| <= j < |s| ensures !IsSpace(s[j]) {
      assert s[j] == t[j - (|s| - |t|)];
    }
    RunStartUnique(s, |s| - |t|, k);
  }

  /** Two starts of whitespace-free runs reaching the end of `s`, each after a whitespace or the start, coincide. */
  lemma RunStartUnique(s: string, m: nat, k: nat)
    requires m <= |s| && k <= |s|
    requires forall j :: m <= j < |s| ==> !IsSpace(s[j])
    requires forall j :: k <= j < |s| ==> !IsSpace(s[j])
    requires m > 0 ==> IsSpace(s[m - 1])
    requires k > 0 ==> IsSpace(s[k - 1])
    ensures m == k
  {
  }

  /** The character test of line 212: every character is a hex digit, a comma or a space. */
  predicate HexShaped(token: string)
  {
    forall i :: 0 <= i < |token| ==> IsHexDigit(token[i]) || token[i] == ',' || token[i] == ' '
  }

  /**
   * A token that passed the test (it has no spaces, being a token) decodes exactly
   * when it has no comma.
   */
  lemma {:induction false} HexShapedPairs(token: string, offset: nat)
    requires forall i :: 0 <= i < |token| ==> IsHexDigit(token[i]) || token[i] == ','
    ensures PairsFrom(token, offset).Success? <==> forall i :: 0 <= i < |token| ==> IsHexDigit(token[i])
    decreases |token|
  {
    if |token| > 0 {
      var p := FirstPair(token);
      var rest := token[|p|..];
      assert forall i :: 0 <= i < |rest| ==> IsHexDigit(rest[i]) || rest[i] == ',' by {
        forall i | 0 <= i < |rest| ensures IsHexDigit(rest[i]) || rest[i] == ',' {
          assert rest[i] == token[|p| + i];
        }
      }
      HexShapedPairs(rest, offset + 2);
      if forall i :: 0 <= i < |token| ==> IsHexDigit(token[i]) {
        assert IsHexDigit(token[0]);
        assert |p| == 2 ==> IsHexDigit(token[1]);
        forall i | 0 <= i < |rest| ensures IsHexDigit(rest[i]) {
          assert rest[i] == token[|p| + i];
        }
      } else {
        var j :| 0 <= j < |token| && !IsHexDigit(token[j]);
        assert token[j] == ',';
        if j >= |p| {
          assert rest[j - |p|] == token[j];
        } else {
          assert p[j] == ',';
          assert !IsSpace(',');
        }
      }
    }
  }

  /** Hex digits decode to bytes, one per two characters (the last may be a single digit). */
  lemma {:induction false} HexPairsBytes(token: string, offset: nat)
    requires forall i :: 0 <= i < |token| ==> IsHexDigit(token[i])
    ensures PairsFrom(token, offset).Success?
    ensures var v := PairsFrom(token, offset).value;
      |v| == (|token| + 1) / 2 && forall k :: 0 <= k < |v| ==> 0 <= v[k] < 256
    decreases |token|
  {
    if |token| > 0 {
      var p := FirstPair(token);
      var rest := token[|p|..];
      assert IsHexDigit(token[0]);
      assert |p| == 2 ==> IsHexDigit(token[1]);
      forall i | 0 <= i < |rest| ensures IsHexDigit(rest[i]) {
        assert rest[i] == token[|p| + i];
      }
      HexPairsBytes(rest, offset + 2);
      var v0 := PythonHexInt(p).value;
      assert 0 <= v0 < 256;
      var w := PairsFrom(rest, offset + 2).value;
      assert PairsFrom(token, offset) == Success([v0] + w);
    }
  }

  /** How `_on_message` interprets its payload (src/hnet_decoder.py:204-226). */
  datatype Inbound =
    | Blank                            // split()[-1] raises IndexError, logged
    | JsonArray(text: string)          // handed to json.loads
    | HexFrame(frame: seq<byte>)       // decoded two characters per byte
    | BadHex(error: HexError)          // int(pair, 16) raised ValueError, logged
    | Unrecognized(text: string)       // "Formato payload non riconosciuto", dropped

  function ToBytes(v: seq<int>): seq<byte>
    requires forall k :: 0 <= k < |v| ==> 0 <= v[k] < 256
  {
    seq(|v|, k requires 0 <= k < |v| => v[k] as byte)
  }

  /** The classification of a payload, as a function; `OnMessage` follows it step by step. */
  function ClassifyPayload(payload: string): Inbound
  {
    match LastToken(payload)
    case None => Blank
    case Some(token) =>
      if |token| > 0 && token[0] == '[' && token[|token| - 1] == ']' then JsonArray(token)
      else if HexShaped(token) then
        match PairsFrom(token, 0)
        case Failure(e) => BadHex(e)
        case Success(v) =>
          LastTokenNoSpace(payload);
          assert forall i :: 0 <= i < |token| ==> IsHexDigit(token[i]) || token[i] == ',' by {
            forall i | 0 <= i < |token| ensures IsHexDigit(token[i]) || token[i] == ',' {
              assert !IsSpace(token[i]);
            }
          }
          HexShapedPairs(token, 0);
          HexPairsBytes(token, 0);
          HexFrame(ToBytes(v))
      else Unrecognized(token)
  }

  // ---------------------------------------------------- the compact dump round trip

  lemma HexPairValue(b: byte, upper: bool)
    ensures var h := if upper then Hex2(b) else Hex2Lower(b);
      PythonHexInt(h) == Some(b as int)
  {
  }

  lemma PairsFromCons(h: string, rest: string, offset: nat)
    requires |h| == 2 && PythonHexInt(h).Some?
    ensures PairsFrom(h + rest, offset) == Prefixed([PythonHexInt(h).value], PairsFrom(rest, offset + 2))
  {
    var s := h + rest;
    assert FirstPair(s) == h;
    assert s[2..] == rest;
  }

  /** Parsing the separator-free dump, in either case, gives back the frame. */
  lemma {:induction false} CompactRoundTrip(frame: seq<byte>, upper: bool, offset: nat)
    ensures PairsFrom(Compact(frame, upper), offset) == Success(frame)
    decreases |frame|
  {
    if |frame| > 0 {
      var h := if upper then Hex2(frame[0]) else Hex2Lower(frame[0]);
      var rest := Compact(frame[1..], upper);
      assert Compact(frame, upper) == h + rest;
      assert PairsFrom(h + rest, offset) == Prefixed([frame[0] as int], PairsFrom(rest, offset + 2)) by {
        HexPairValue(frame[0], upper);
        PairsFromCons(h, rest, offset);
      }
      CompactRoundTrip(frame[1..], upper, offset + 2);
      assert [frame[0] as int] + frame[1..] == frame;
    }
  }

  /** A frame sent as uppercase or lowercase hex reaches the decoder unchanged. */
  lemma ClassifyCompact(frame: seq<byte>, upper: bool)
    requires |frame| > 0
    ensures ClassifyPayload(Compact(frame, upper)) == HexFrame(frame)
  {
    var s := Compact(frame, upper);
    CompactIsToken(frame, upper);
    CompactRoundTrip(frame, upper, 0);
    assert ToBytes(frame) == frame;
  }

  lemma CompactIsToken(frame: seq<byte>, upper: bool)
    requires |frame| > 0
    ensures var s := Compact(frame, upper);
      LastToken(s) == Some(s) && s[0] != '[' && HexShaped(s)
  {
    CompactShape(frame, upper);
    WholeToken(Compact(frame, upper));
  }

  /** A nonempty payload without whitespace is its own last token. */
  lemma WholeToken(s: string)
    requires |s| > 0 && forall i :: 0 <= i < |s| ==> !IsSpace(s[i])
    ensures LastToken(s) == Some(s)
  {
    assert s[|s| - 1] == s[|s| - 1];
    LastRunOfSuffix(s, 0);
    assert s[0..] == s;
  }

  /** The compact dump is hex digits, two per byte. */
  lemma {:induction false} CompactShape(frame: seq<byte>, upper: bool)
    ensures |Compact(frame, upper)| == 2 * |frame| && |Compact(frame, upper)| % 2 == 0
    ensures forall i :: 0 <= i < |Compact(frame, upper)| ==>
      IsHexDigit(Compact(frame, upper)[i]) && !IsSpace(Compact(frame, upper)[i])
    ensures upper ==> forall i :: 0 <= i < |Compact(frame, upper)| ==> !('a' <= Compact(frame, upper)[i] <= 'z')
    decreases |frame|
  {
    DoubleIsEven(|frame|);
    if |frame| > 0 {
      CompactShape(frame[1..], upper);
      var h := if upper then Hex2(frame[0]) else Hex2Lower(frame[0]);
      var s := Compact(frame, upper);
      assert s == h + Compact(frame[1..], upper);
      forall i | 0 <= i < |s| ensures IsHexDigit(s[i]) && !IsSpace(s[i]) && (upper ==> !('a' <= s[i] <= 'z')) {
        if i >= 2 {
          assert s[i] == Compact(frame[1..], upper)[i - 2];
        }
      }
    }
  }

  lemma DoubleIsEven(n: nat)
    ensures (2 * n) % 2 == 0
  {
  }

  // ------------------------------------------------- _hex_string_to_int_array

  /** `s.replace(" ", "")`. */
  function RemoveSpaces(s: string): (t: string)
    ensures |t| <= |s|
  {
    if |s| == 0 then "" else (if s[0] == ' ' then "" else [s[0]]) + RemoveSpaces(s[1..])
  }

  function UpperChar(c: char): char
  {
    if 'a' <= c <= 'z' then (c as int - 'a' as int + 'A' as int) as char else c
  }

  /** `s.upper()` on ASCII letters. */
  function Upper(s: string): (t: string)
    ensures |t| == |s|
  {
    if |s| == 0 then "" else [UpperChar(s[0])] + Upper(s[1..])
  }

  /** `_hex_string_to_int_array` as written (src/hnet_decoder.py:481-512). */
  function HexStringValues(hexString: string): Result<seq<int>, HexError>
  {
    var s := Upper(RemoveSpaces(hexString));
    if |s| % 2 != 0 then Failure(OddLength) else PairsFrom(s, 0)
  }

  method HexStringToIntArray(hexString: string) returns (r: Result<seq<int>, HexError>)
    ensures r == HexStringValues(hexString)
  {
    var s := Upper(RemoveSpaces(hexString));
    if |s| % 2 != 0 {
      return Failure(OddLength);
    }
    r := DecodePairs(s);
  }

  /** Python's int() strips the sign: the helper returns -1 for "-1" instead of raising. */
  lemma HexStringAcceptsSign()
    ensures HexStringValues("-1") == Success([-1])
    ensures HexStringValues("\t1") == Success([1])
  {
    SignNoSpace("-1");
    PairsFromCons("-1", "", 0);
    assert "-1" + "" == "-1";
    assert [-1] + [] == [-1];
    SignNoSpace("\t1");
    assert IsSpace('\t');
    PairsFromCons("\t1", "", 0);
    assert "\t1" + "" == "\t1";
    assert [1] + [] == [1];
  }

  lemma SignNoSpace(s: string)
    requires |s| == 2 && s[0] in "-\t" && '0' <= s[1] <= '9'
    ensures Upper(RemoveSpaces(s)) == s
  {
    assert RemoveSpaces(s[1..][1..]) == "";
    assert RemoveSpaces(s[1..]) == [s[1]];
    assert RemoveSpaces(s) == [s[0]] + [s[1]] == s;
  }

  lemma UpperKeeps(s: string)
    requires forall i :: 0 <= i < |s| ==> !('a' <= s[i] <= 'z')
    ensures Upper(s) == s
  {
    if |s| > 0 {
      UpperKeeps(s[1..]);
    }
  }

  lemma RemoveSpacesAppend(a: string, b: string)
    ensures RemoveSpaces(a + b) == RemoveSpaces(a) + RemoveSpaces(b)
  {
    if |a| > 0 {
      assert (a + b)[0] == a[0];
      assert (a + b)[1..] == a[1..] + b;
      RemoveSpacesAppend(a[1..], b);
    } else {
      assert a + b == b;
    }
  }

  lemma {:induction false} DumpWithoutSpaces(frame: seq<byte>)
    ensures RemoveSpaces(Dump(frame)) == Compact(frame, true)
    decreases |frame|
  {
    if |frame| == 1 {
      assert Compact(frame, true) == Hex2(frame[0]) + Compact(frame[1..], true);
      assert RemoveSpaces(Hex2(frame[0])) == Hex2(frame[0]);
    } else if |frame| > 1 {
      DumpWithoutSpaces(frame[1..]);
      RemoveSpacesAppend(Hex2(frame[0]) + " ", Dump(frame[1..]));
      RemoveSpacesAppend(Hex2(frame[0]), " ");
      assert RemoveSpaces(Hex2(frame[0])) == Hex2(frame[0]);
    }
  }

  /** The helper inverts the space-separated dump of the logs. */
  lemma DumpRoundTrip(frame: seq<byte>)
    ensures HexStringValues(Dump(frame)) == Success(frame)
  {
    DumpWithoutSpaces(frame);
    CompactShape(frame, true);
    UpperKeeps(Compact(frame, true));
    CompactRoundTrip(frame, true, 0);
  }

  // -------------------------- the helper as its docstring describes it

  /** `int(p, 16)` restricted to what the docstring promises: exactly two hex digits. */
  function StrictPairValue(p: string): Option<byte>
  {
    if |p| == 2 && IsHexDigit(p[0]) && IsHexDigit(p[1]) then Some(16 * HexValue(p[0]) + HexValue(p[1])) else None
  }

  function StrictPairsFrom(s: string, offset: nat): Result<seq<byte>, HexError>
    decreases |s|
  {
    if |s| == 0 then Success([])
    else
      var p := FirstPair(s);
      match StrictPairValue(p)
      case None => Failure(InvalidPair(p, offset))
      case Some(v) =>
        match StrictPairsFrom(s[|p|..], offset + 2)
        case Success(rest) => Success([v] + rest)
        case Failure(e) => Failure(e)
  }

  /** The helper with odd length and every non-hex character rejected, as its docstring says. */
  function HexStringBytes(hexString: string): Result<seq<byte>, HexError>
  {
    var s := Upper(RemoveSpaces(hexString));
    if |s| % 2 != 0 then Failure(OddLength) else StrictPairsFrom(s, 0)
  }

  /** On an even string the strict loop succeeds exactly when every character is a hex digit. */
  lemma {:induction false} StrictPairsAccept(s: string, offset: nat)
    requires |s| % 2 == 0
    ensures StrictPairsFrom(s, offset).Success? <==> forall i :: 0 <= i < |s| ==> IsHexDigit(s[i])
    decreases |s|
  {
    if |s| > 0 {
      var rest := s[2..];
      assert FirstPair(s) == s[..2] && s[|FirstPair(s)|..] == rest;
      StrictPairsAccept(rest, offset + 2);
      if forall i :: 0 <= i < |s| ==> IsHexDigit(s[i]) {
        assert IsHexDigit(s[0]) && IsHexDigit(s[1]);
        forall i | 0 <= i < |rest| ensures IsHexDigit(rest[i]) {
          assert rest[i] == s[i + 2];
        }
      } else {
        var j :| 0 <= j < |s| && !IsHexDigit(s[j]);
        if j >= 2 {
          assert rest[j - 2] == s[j];
        }
      }
    }
  }

  /** On an even string of hex digits, byte `k` is the value of characters `2k` and `2k + 1`. */
  lemma {:induction false} StrictPairsValues(s: string, offset: nat)
    requires |s| % 2 == 0 && forall i :: 0 <= i < |s| ==> IsHexDigit(s[i])
    ensures StrictPairsFrom(s, offset).Success?
    ensures var v := StrictPairsFrom(s, offset).value;
      |v| == |s| / 2 && forall k :: 0 <= k < |v| ==> v[k] == 16 * HexValue(s[2 * k]) + HexValue(s[2 * k + 1])
    decreases |s|
  {
    if |s| > 0 {
      var rest := s[2..];
      assert FirstPair(s) == s[..2] && s[|FirstPair(s)|..] == rest;
      assert IsHexDigit(s[0]) && IsHexDigit(s[1]);
      forall i | 0 <= i < |rest| ensures IsHexDigit(rest[i]) {
        assert rest[i] == s[i + 2];
      }
      StrictPairsValues(rest, offset + 2);
      var w := StrictPairsFrom(rest, offset + 2).value;
      var v0: byte := 16 * HexValue(s[0]) + HexValue(s[1]);
      var v := [v0] + w;
      assert StrictPairsFrom(s, offset) == Success(v);
      forall k | 1 <= k < |v| ensures v[k] == 16 * HexValue(s[2 * k]) + HexValue(s[2 * k + 1]) {
        var j := k - 1;
        assert v[k] == w[j];
        assert rest[2 * j] == s[2 * k] && rest[2 * j + 1] == s[2 * k + 1];
      }
    }
  }

  lemma {:induction false} StrictCompactRoundTrip(frame: seq<byte>, offset: nat)
    ensures StrictPairsFrom(Compact(frame, true), offset) == Success(frame)
    decreases |frame|
  {
    if |frame| > 0 {
      var s := Compact(frame, true);
      assert s == Hex2(frame[0]) + Compact(frame[1..], true);
      assert FirstPair(s) == Hex2(frame[0]);
      assert s[2..] == Compact(frame[1..], true);
      StrictCompactRoundTrip(frame[1..], offset + 2);
      assert [frame[0]] + frame[1..] == frame;
    }
  }

  /** The corrected helper inverts the dump of the logs, with every value a byte. */
  lemma StrictDumpRoundTrip(frame: seq<byte>)
    ensures HexStringBytes(Dump(frame)) == Success(frame)
  {
    DumpWithoutSpaces(frame);
    CompactShape(frame, true);
    UpperKeeps(Compact(frame, true));
    StrictCompactRoundTrip(frame, 0);
  }

  /** The corrected helper rejects the signed pair the one as written lets through. */
  lemma StrictRejectsSign()
    ensures HexStringBytes("-1") == Failure(InvalidPair("-1", 0))
  {
    SignNoSpace("-1");
    assert FirstPair("-1") == "-1";
  }

  /** The corrected helper succeeds exactly on an even number of hex digits once spaces are gone. */
  lemma StrictAccepts(hexString: string)
    ensures var s := Upper(RemoveSpaces(hexString));
      HexStringBytes(hexString).Success? <==>
        |s| % 2 == 0 && forall i :: 0 <= i < |s| ==> IsHexDigit(s[i])
  {
    var s := Upper(RemoveSpaces(hexString));
    if |s| % 2 == 0 {
      StrictPairsAccept(s, 0);
    }
  }

  /** The strict loop's accumulator in front of what the rest of the string yields. */
  function StrictPrefixed(acc: seq<byte>, r: Result<seq<byte>, HexError>): Result<seq<byte>, HexError>
  {
    match r
    case Success(v) => Success(acc + v)
    case Failure(e) => Failure(e)
  }

  /** One step of the strict loop: the pair at index `i` and the rest of the string. */
  lemma StrictPairsFromStep(s: string, i: nat, acc: seq<byte>)
    requires i + 2 <= |s|
    ensures StrictPairValue(s[i..i + 2]).None? ==>
      StrictPrefixed(acc, StrictPairsFrom(s[i..], i)) == Failure(InvalidPair(s[i..i + 2], i))
    ensures StrictPairValue(s[i..i + 2]).Some? ==>
      StrictPrefixed(acc, StrictPairsFrom(s[i..], i))
        == StrictPrefixed(acc + [StrictPairValue(s[i..i + 2]).value], StrictPairsFrom(s[i + 2..], i + 2))
  {
    assert FirstPair(s[i..]) == s[i..i + 2];
    assert s[i..][2..] == s[i + 2..];
    match StrictPairsFrom(s[i + 2..], i + 2) {
      case Success(rest) =>
        if StrictPairValue(s[i..i + 2]).Some? {
          var v := StrictPairValue(s[i..i + 2]).value;
          assert acc + ([v] + rest) == (acc + [v]) + rest;
        }
      case Failure(_) =>
    }
  }

  /** `_hex_string_to_int_array` under its docstring: spaces removed, upper-cased, then the strict loop. */
  method HexStringToByteArray(hexString: string) returns (r: Result<seq<byte>, HexError>)
    ensures r == HexStringBytes(hexString)
  {
    var s := Upper(RemoveSpaces(hexString));
    if |s| % 2 != 0 {
      return Failure(OddLength);
    }
    r := StrictPairsLoop(s);
  }

  /** The `for i in range(0, len(s), 2)` loop over an even-length string, rejecting any non-hex pair. */
  method StrictPairsLoop(s: string) returns (r: Result<seq<byte>, HexError>)
    requires |s| % 2 == 0
    ensures r == StrictPairsFrom(s, 0)
  {
    var result: seq<byte> := [];
    var i := 0;
    assert s[0..] == s;
    match StrictPairsFrom(s, 0) {
      case Success(rest) => assert result + rest == rest;
      case Failure(_) =>
    }
    while i < |s|
      invariant i <= |s| && i % 2 == 0
      invariant StrictPairsFrom(s, 0) == StrictPrefixed(result, StrictPairsFrom(s[i..], i))
      decreases |s| - i
    {
      var hexPair := s[i..i + 2];
      var value := StrictPairValue(hexPair);
      StrictPairsFromStep(s, i, result);
      if value.None? {
        return Failure(InvalidPair(hexPair, i));
      }
      result := result + [value.value];
      i := i + 2;
    }
    assert s[i..] == [];
    assert result + [] == result;
    r := Success(result);
  }
}
