/** The stateless parser of DTLS ClientHello messages, and the search for one of its extensions. */
module ClientHelloParser {
  import opened Words

  const RAN_LEN: nat := 32

  datatype ClientHello = ClientHello(version: seq<byte>, random: seq<byte>, sessionId: seq<byte>, cookie: seq<byte>,
                                     cipherSuites: seq<byte>, compression: seq<byte>, extensions: seq<byte>)

  datatype Result<T> = Ok(value: T) | BufferError

  // ----- printing ------------------------------------------------------------------------------

  /** Can the fields be written with their length prefixes? */
  predicate Printable(ch: ClientHello) {
    && |ch.version| == 2 && |ch.random| == RAN_LEN
    && |ch.sessionId| < 0x100 && |ch.cookie| < 0x100 && |ch.cipherSuites| < 0x1_0000 && |ch.compression| < 0x100
    && |ch.extensions| < 0x1_0000
  }

  function Vector8(v: seq<byte>): (r: seq<byte>)
    requires |v| < 0x100
    ensures |r| == |v| + 1
  {
    [|v|] + v
  }

  function Vector16(v: seq<byte>): (r: seq<byte>)
    requires |v| < 0x1_0000
    ensures |r| == |v| + 2
  {
    C16toa(|v|) + v
  }

  /** The fields in the order of section 5.3 of RFC 9147, with given bytes for the extensions. */
  function Fields(ch: ClientHello, tail: seq<byte>): seq<byte>
    requires Printable(ch)
  {
    ch.version + (ch.random + (Vector8(ch.sessionId) + (Vector8(ch.cookie)
    + (Vector16(ch.cipherSuites) + (Vector8(ch.compression) + tail)))))
  }

  /** Extensions are left out when there are none. */
  function PrintExtensions(extensions: seq<byte>): seq<byte>
    requires |extensions| < 0x1_0000
  {
    if extensions == [] then [] else Vector16(extensions)
  }

  function Print(ch: ClientHello): seq<byte>
    requires Printable(ch)
  {
    Fields(ch, PrintExtensions(ch.extensions))
  }

  // ----- parsing -----------------------------------------------------------------------------------

  /** ReadVector8 and ReadVector16 where they may read: the vector and where it ends, maybe behind the input. */
  function ReadVector8(input: seq<byte>, idx: nat): (r: (seq<byte>, nat))
    requires idx < |input|
    ensures r.1 <= |input| ==> r.1 == idx + 1 + |r.0|
  {
    var end := idx + 1 + input[idx] as int;
    (if end <= |input| then input[idx + 1..end] else [], end)
  }

  function ReadVector16(input: seq<byte>, idx: nat): (r: (seq<byte>, nat))
    requires idx + 2 <= |input|
    ensures r.1 <= |input| ==> r.1 == idx + 2 + |r.0|
  {
    var end := idx + 2 + Ato16(input[idx..]) as int;
    (if end <= |input| then input[idx + 2..end] else [], end)
  }

  /** ParseClientHello, field by field; first tells whether the input may be the first fragment of a longer message. */
  method ParseClientHello(input: seq<byte>, first: bool) returns (r: Result<ClientHello>)
    ensures r == Parse(input, first)
  {
    var helloSz := |input|;
    if 2 + RAN_LEN + 1 > helloSz {
      return BufferError;
    }
    var version, random := input[0..2], input[2..2 + RAN_LEN];
    var idx := 2 + RAN_LEN;
    hide ReadVector8, ReadVector16, Take8, Take16;
    Read8IsTake8(input, idx);
    var (sessionId, afterId) := ReadVector8(input, idx);
    idx := afterId;
    if idx > helloSz - 1 {
      return BufferError;
    }
    Read8IsTake8(input, idx);
    var (cookie, afterCookie) := ReadVector8(input, idx);
    idx := afterCookie;
    if idx > helloSz - 2 {
      return BufferError;
    }
    Read16IsTake16(input, idx);
    var (cipherSuites, afterSuites) := ReadVector16(input, idx);
    idx := afterSuites;
    if idx > helloSz - 1 {
      return BufferError;
    }
    Read8IsTake8(input, idx);
    var (compression, afterCompression) := ReadVector8(input, idx);
    idx := afterCompression;
    var extensions := ReadExtensions(input, idx, first);
    if extensions.BufferError? {
      return BufferError;
    }
    r := Ok(ClientHello(version, random, sessionId, cookie, cipherSuites, compression, extensions.value));
  }

  /** The end of ParseClientHello. */
  method ReadExtensions(input: seq<byte>, start: nat, first: bool) returns (r: Result<seq<byte>>)
    ensures r == if start > |input| then BufferError else TakeExtensions(input[start..], first)
  {
    var idx, helloSz := start, |input|;
    var extensions := [];
    ghost var s := if start <= |input| then input[start..] else [];
    assert start + 2 <= helloSz ==> s[2..] == input[start + 2..helloSz];
    if idx < helloSz - 2 {
      var extStart := idx + 2;
      var (exts, afterExts) := ReadVector16(input, idx);
      extensions, idx := exts, afterExts;
      if idx > helloSz {
        idx := helloSz;
        if first && extStart < helloSz {
          extensions := input[extStart..helloSz];
        } else {
          return BufferError;
        }
      }
    }
    if idx != helloSz {
      return BufferError;
    }
    r := Ok(extensions);
  }

  lemma SliceOfTail(input: seq<byte>, idx: nat, a: nat, b: nat)
    requires idx <= |input| && a <= b <= |input| - idx
    ensures input[idx..][a..b] == input[idx + a..idx + b] && input[idx..][b..] == input[idx + b..]
  {
  }

  lemma Read8IsTake8(input: seq<byte>, idx: nat)
    requires idx < |input|
    ensures var (v, end) := ReadVector8(input, idx);
      Take8(input[idx..]) == if end <= |input| then Ok((v, input[end..])) else BufferError
  {
    if idx + 1 + input[idx] as int <= |input| {
      SliceOfTail(input, idx, 1, 1 + input[idx] as int);
    }
  }

  lemma Read16IsTake16(input: seq<byte>, idx: nat)
    requires idx + 2 <= |input|
    ensures var (v, end) := ReadVector16(input, idx);
      Take16(input[idx..]) == if end <= |input| then Ok((v, input[end..])) else BufferError
  {
    if idx + 2 + Ato16(input[idx..]) as int <= |input| {
      SliceOfTail(input, idx, 2, 2 + Ato16(input[idx..]) as int);
    }
  }

  // ----- the same by peeling fields off -----------------------------------------------------------------

  /** A vector with a one-byte length off the front, with what is left. */
  function Take8(s: seq<byte>): Result<(seq<byte>, seq<byte>)> {
    if |s| < 1 || |s| < 1 + s[0] as int then BufferError else Ok((s[1..1 + s[0] as int], s[1 + s[0] as int..]))
  }

  function Take16(s: seq<byte>): (r: Result<(seq<byte>, seq<byte>)>)
    ensures r.Ok? ==> |r.value.0| + |r.value.1| + 2 == |s|
  {
    if |s| < 2 || |s| < 2 + Ato16(s) as int then BufferError
    else Ok((s[2..2 + Ato16(s) as int], s[2 + Ato16(s) as int..]))
  }

  /** The extensions: nothing, or a vector that is not empty and ends the input, or in a first fragment a part of
      one. */
  function TakeExtensions(s: seq<byte>, first: bool): Result<seq<byte>> {
    if s == [] then Ok([])
    else if |s| <= 2 then BufferError
    else if |s| == 2 + Ato16(s) as int || (first && |s| < 2 + Ato16(s) as int) then Ok(s[2..])
    else BufferError
  }

  function Parse(s: seq<byte>, first: bool): Result<ClientHello> {
    if |s| < 2 + RAN_LEN then BufferError
    else
      var sessionId := Take8(s[2 + RAN_LEN..]);
      if sessionId.BufferError? then BufferError
      else
        var cookie := Take8(sessionId.value.1);
        if cookie.BufferError? then BufferError
        else
          var suites := Take16(cookie.value.1);
          if suites.BufferError? then BufferError
          else
            var compression := Take8(suites.value.1);
            if compression.BufferError? then BufferError
            else
              var extensions := TakeExtensions(compression.value.1, first);
              if extensions.BufferError? then BufferError
              else Ok(ClientHello(s[..2], s[2..2 + RAN_LEN], sessionId.value.0, cookie.value.0, suites.value.0,
                                  compression.value.0, extensions.value))
  }

  // ----- the parser undoes the printer, and the printer the parser ------------------------------------------

  lemma Take8OfVector8(v: seq<byte>, rest: seq<byte>)
    requires |v| < 0x100
    ensures Take8(Vector8(v) + rest) == Ok((v, rest))
  {
    var s := Vector8(v) + rest;
    assert s[1..1 + |v|] == v && s[1 + |v|..] == rest;
  }

  lemma Take16OfVector16(v: seq<byte>, rest: seq<byte>)
    requires |v| < 0x1_0000
    ensures Take16(Vector16(v) + rest) == Ok((v, rest))
  {
    var s := Vector16(v) + rest;
    assert s == C16toa(|v|) + (v + rest);
    Ato16OfC16toa(|v|, v + rest);
    assert s[2..2 + |v|] == v && s[2 + |v|..] == rest;
  }

  lemma Vector8OfTake8(s: seq<byte>)
    requires Take8(s).Ok?
    ensures |Take8(s).value.0| < 0x100 && Vector8(Take8(s).value.0) + Take8(s).value.1 == s
  {
  }

  lemma Vector16OfTake16(s: seq<byte>)
    requires Take16(s).Ok?
    ensures |Take16(s).value.0| < 0x1_0000 && Vector16(Take16(s).value.0) + Take16(s).value.1 == s
  {
  }

  lemma TailOfConcat(a: seq<byte>, b: seq<byte>)
    ensures (a + b)[..|a|] == a && (a + b)[|a|..] == b
  {
  }

  /** The parser takes the fields and leaves the extensions. */
  lemma FieldsParse(ch: ClientHello, tail: seq<byte>, first: bool)
    requires Printable(ch)
    ensures var extensions := TakeExtensions(tail, first);
      Parse(Fields(ch, tail), first)
      == if extensions.Ok? then Ok(ch.(extensions := extensions.value)) else BufferError
  {
    hide Take8, Take16, Vector8, Vector16, TakeExtensions;
    var compression := Vector8(ch.compression) + tail;
    var suites := Vector16(ch.cipherSuites) + compression;
    var cookie := Vector8(ch.cookie) + suites;
    var sessionId := Vector8(ch.sessionId) + cookie;
    Take8OfVector8(ch.sessionId, cookie);
    Take8OfVector8(ch.cookie, suites);
    Take16OfVector16(ch.cipherSuites, compression);
    Take8OfVector8(ch.compression, tail);
    TailOfConcat(ch.version, ch.random + sessionId);
    TailOfConcat(ch.random, sessionId);
    var s := Fields(ch, tail);
    assert s[2..2 + RAN_LEN] == s[2..][..RAN_LEN] && s[2 + RAN_LEN..] == s[2..][RAN_LEN..];
  }

  /** What the parser accepts is made of the fields it returns. */
  lemma FieldsOfParse(s: seq<byte>, first: bool) returns (tail: seq<byte>)
    requires Parse(s, first).Ok?
    ensures var ch := Parse(s, first).value;
      Printable(ch.(extensions := [])) && s == Fields(ch.(extensions := []), tail)
      && TakeExtensions(tail, first) == Ok(ch.extensions)
  {
    hide Take8, Take16, Vector8, Vector16, TakeExtensions;
    var rest := s[2 + RAN_LEN..];
    var sessionId := Take8(rest).value;
    var cookie := Take8(sessionId.1).value;
    var suites := Take16(cookie.1).value;
    var compression := Take8(suites.1).value;
    Vector8OfTake8(rest);
    Vector8OfTake8(sessionId.1);
    Vector16OfTake16(cookie.1);
    Vector8OfTake8(suites.1);
    tail := compression.1;
    assert s == s[..2] + (s[2..2 + RAN_LEN] + rest);
  }

  lemma TakeOfPrintExtensions(extensions: seq<byte>, first: bool)
    requires |extensions| < 0x1_0000
    ensures TakeExtensions(PrintExtensions(extensions), first) == Ok(extensions)
  {
    if extensions != [] {
      Ato16OfC16toa(|extensions|, extensions);
    }
  }

  lemma PrintOfTakeExtensions(tail: seq<byte>)
    requires TakeExtensions(tail, false).Ok?
    ensures |TakeExtensions(tail, false).value| < 0x1_0000
    ensures PrintExtensions(TakeExtensions(tail, false).value) == tail
  {
  }

  /** A whole message parses to exactly the ClientHello it is the printed form of: every ClientHello, its extensions
      left out or not empty, parses back to itself, and what parses is tiled by its fields. */
  lemma ParsesExactlyWhatIsPrinted(s: seq<byte>, ch: ClientHello)
    ensures Parse(s, false) == Ok(ch) <==> Printable(ch) && Print(ch) == s
  {
    hide Fields, Parse, TakeExtensions, PrintExtensions;
    if Parse(s, false) == Ok(ch) {
      var tail := FieldsOfParse(s, false);
      PrintOfTakeExtensions(tail);
      FieldsFrame(ch, ch.(extensions := []), tail);
    }
    if Printable(ch) && Print(ch) == s {
      FieldsParse(ch, PrintExtensions(ch.extensions), false);
      TakeOfPrintExtensions(ch.extensions, false);
    }
  }

  lemma FieldsFrame(a: ClientHello, b: ClientHello, tail: seq<byte>)
    requires Printable(a) && Printable(b) && b == a.(extensions := b.extensions)
    ensures Fields(a, tail) == Fields(b, tail)
  {
  }

  /** A first fragment is accepted as well when it breaks off inside the extensions; as a whole message it is not. */
  lemma FragmentParses(ch: ClientHello, k: nat)
    requires Printable(ch) && 0 < k < |ch.extensions|
    ensures var cut := Fields(ch, Vector16(ch.extensions)[..2 + k]);
      && cut <= Print(ch)
      && Parse(cut, true) == Ok(ch.(extensions := ch.extensions[..k]))
      && Parse(cut, false).BufferError?
  {
    hide Fields, Parse;
    var tail := Vector16(ch.extensions)[..2 + k];
    FieldsParse(ch, tail, true);
    FieldsParse(ch, tail, false);
    CutExtensions(ch.extensions, k);
    hide TakeExtensions, C16toa;
    FieldsGrow(ch, tail, Vector16(ch.extensions)[2 + k..]);
    assert tail + Vector16(ch.extensions)[2 + k..] == Vector16(ch.extensions);
  }

  lemma CutExtensions(extensions: seq<byte>, k: nat)
    requires 0 < k < |extensions| < 0x1_0000
    ensures var tail := Vector16(extensions)[..2 + k];
      TakeExtensions(tail, true) == Ok(extensions[..k]) && TakeExtensions(tail, false).BufferError?
  {
    var tail := Vector16(extensions)[..2 + k];
    assert tail == C16toa(|extensions|) + extensions[..k] && tail[2..] == extensions[..k];
    Ato16OfC16toa(|extensions|, extensions[..k]);
  }

  lemma FieldsGrow(ch: ClientHello, tail: seq<byte>, more: seq<byte>)
    requires Printable(ch)
    ensures Fields(ch, tail) + more == Fields(ch, tail + more)
  {
    assert (Vector8(ch.compression) + tail) + more == Vector8(ch.compression) + (tail + more);
  }

  // ----- finding an extension ------------------------------------------------------------------------------------

  datatype Extension = Extension(extType: word16, data: seq<byte>)

  datatype Search = Found(data: seq<byte>) | NotFound | Malformed

  function Encode(e: Extension): seq<byte>
    requires |e.data| < 0x1_0000
  {
    C16toa(e.extType) + Vector16(e.data)
  }

  predicate AllEncodable(es: seq<Extension>) { forall i :: 0 <= i < |es| ==> |es[i].data| < 0x1_0000 }

  function EncodeAll(es: seq<Extension>): seq<byte>
    requires AllEncodable(es)
  {
    if es == [] then [] else Encode(es[0]) + EncodeAll(es[1..])
  }

  /** The extensions that bytes begin with, and the bytes behind them: too few for another one, or announcing more
      than there is. */
  function Decode(s: seq<byte>): (r: (seq<Extension>, seq<byte>))
    ensures AllEncodable(r.0)
    decreases |s|
  {
    if |s| < 4 || Take16(s[2..]).BufferError? then ([], s)
    else
      var (data, after) := Take16(s[2..]).value;
      var (es, rest) := Decode(after);
      ([Extension(Ato16(s), data)] + es, rest)
  }

  /** The first extension of the type, if the list has one. */
  function FirstOf(es: seq<Extension>, extType: word16): Search {
    if es == [] then NotFound
    else if es[0].extType == extType then Found(es[0].data) else FirstOf(es[1..], extType)
  }

  /** What the search of a list comes to: if no extension has the type, the bytes behind the last one are an error
      unless they are too few to begin another. */
  function Outcome(exts: seq<byte>, extType: word16): Search {
    var (es, rest) := Decode(exts);
    if FirstOf(es, extType).Found? || |rest| < 4 then FirstOf(es, extType) else Malformed
  }

  lemma FirstOfHead(e: Extension, es: seq<Extension>, extType: word16)
    ensures FirstOf([e] + es, extType) == if e.extType == extType then Found(e.data) else FirstOf(es, extType)
    ensures FirstOf([], extType) == NotFound
  {
    assert ([e] + es)[1..] == es;
  }

  /** One extension is passed. */
  lemma OutcomeAt(exts: seq<byte>, idx: nat, extType: word16)
    requires idx + 4 <= |exts|
    ensures var (ext, end) := ReadVector16(exts, idx + 2);
      Outcome(exts[idx..], extType)
      == if end > |exts| then Malformed
         else if Ato16(exts[idx..]) == extType then Found(ext) else Outcome(exts[end..], extType)
  {
    hide FirstOf, Take16, ReadVector16, Ato16;
    var s := exts[idx..];
    assert s[2..] == exts[idx + 2..];
    Read16IsTake16(exts, idx + 2);
    var (ext, end) := ReadVector16(exts, idx + 2);
    FirstOfHead(Extension(Ato16(s), ext), Decode(if end <= |exts| then exts[end..] else []).0, extType);
  }

  /** FindExtByType */
  method FindExtByType(extType: word16, exts: seq<byte>) returns (r: Search)
    ensures r == Outcome(exts, extType)
  {
    hide Outcome, ReadVector16, Ato16;
    var idx, len := 0, |exts|;
    assert exts[0..] == exts;
    while len >= 4
      invariant 0 <= idx <= |exts| && len == |exts| - idx
      invariant Outcome(exts, extType) == Outcome(exts[idx..], extType)
      decreases len
    {
      OutcomeAt(exts, idx, extType);
      var t := Ato16(exts[idx..]);
      var (ext, end) := ReadVector16(exts, idx + 2);
      if end > |exts| {
        return Malformed;
      }
      if t == extType {
        return Found(ext);
      }
      idx := end;
      len := |exts| - idx;
    }
    TooFew(exts[idx..], extType);
    r := NotFound;
  }

  lemma TooFew(s: seq<byte>, extType: word16)
    requires |s| < 4
    ensures Outcome(s, extType) == NotFound
  {
  }

  lemma DecodeFirst(e: Extension, tail: seq<byte>)
    requires |e.data| < 0x1_0000
    ensures Decode(C16toa(e.extType) + (Vector16(e.data) + tail)) == ([e] + Decode(tail).0, Decode(tail).1)
  {
    var rest := Vector16(e.data) + tail;
    Ato16OfC16toa(e.extType, rest);
    Take16OfVector16(e.data, tail);
    hide C16toa, Ato16, Take16, Vector16;
    assert (C16toa(e.extType) + rest)[2..] == rest;
  }

  /** Decoding undoes encoding, whatever is left behind the list ... */
  lemma {:induction false} DecodeOfEncode(es: seq<Extension>, rest: seq<byte>)
    requires AllEncodable(es) && Decode(rest) == ([], rest)
    ensures Decode(EncodeAll(es) + rest) == (es, rest)
  {
    hide Decode, C16toa;
    if es == [] {
      assert EncodeAll(es) + rest == rest;
    } else {
      DecodeOfEncode(es[1..], rest);
      EncodeFirst(es, rest);
      DecodeFirst(es[0], EncodeAll(es[1..]) + rest);
      assert [es[0]] + es[1..] == es;
    }
  }

  lemma EncodeFirst(es: seq<Extension>, rest: seq<byte>)
    requires AllEncodable(es) && es != []
    ensures EncodeAll(es) + rest == C16toa(es[0].extType) + (Vector16(es[0].data) + (EncodeAll(es[1..]) + rest))
  {
  }

  /** What a search of extensions and the bytes behind them comes to: the first extension of the type, wherever it is;
      without one, an error if the bytes begin another extension, which cannot be all there. */
  lemma OutcomeOfEncode(es: seq<Extension>, rest: seq<byte>, extType: word16)
    requires AllEncodable(es) && (|rest| < 4 || |rest| - 4 < Ato16(rest[2..]))
    ensures var i := FirstIndex(es, extType);
      Outcome(EncodeAll(es) + rest, extType)
      == if i < |es| then Found(es[i].data) else if |rest| < 4 then NotFound else Malformed
  {
    hide Decode, Ato16, EncodeAll;
    NothingDecodes(rest);
    DecodeOfEncode(es, rest);
    FirstOfMissing(es, extType);
    var i := FirstIndex(es, extType);
    if i < |es| {
      FirstOfIsFirst(es, extType, i);
    }
  }

  lemma NothingDecodes(rest: seq<byte>)
    requires |rest| < 4 || |rest| - 4 < Ato16(rest[2..])
    ensures Decode(rest) == ([], rest)
  {
    hide Ato16;
  }

  /** Where the first extension of the type is, the length of the list for nowhere. */
  function FirstIndex(es: seq<Extension>, extType: word16): (i: nat)
    ensures i <= |es| && (i < |es| ==> es[i].extType == extType)
    ensures forall j :: 0 <= j < i ==> es[j].extType != extType
  {
    if es == [] || es[0].extType == extType then 0 else 1 + FirstIndex(es[1..], extType)
  }

  /** ... and encoding undoes decoding: every byte of a list is in an extension or behind them. */
  lemma {:induction false} EncodeOfDecode(s: seq<byte>)
    ensures EncodeAll(Decode(s).0) + Decode(s).1 == s
    decreases |s|
  {
    hide C16toa, Ato16, Take16, Vector16;
    if |s| >= 4 && Take16(s[2..]).Ok? {
      var (data, after) := Take16(s[2..]).value;
      var (es, rest) := Decode(after);
      var e := Extension(Ato16(s), data);
      EncodeOfDecode(after);
      assert Decode(s) == ([e] + es, rest);
      C16toaOfAto16(s);
      Vector16OfTake16(s[2..]);
      hide Decode;
      assert ([e] + es)[1..] == es;
      EncodeFirst([e] + es, rest);
      assert s == s[..2] + s[2..];
    } else {
      assert EncodeAll([]) + s == s;
    }
  }

  /** FirstOf is the first: an earlier extension of the type would have been it, and it is missing only if none has
      it. */
  lemma {:induction false} FirstOfIsFirst(es: seq<Extension>, extType: word16, i: nat)
    requires i < |es| && es[i].extType == extType && forall j :: 0 <= j < i ==> es[j].extType != extType
    ensures FirstOf(es, extType) == Found(es[i].data)
  {
    if i > 0 {
      FirstOfIsFirst(es[1..], extType, i - 1);
    }
  }

  lemma {:induction false} FirstOfMissing(es: seq<Extension>, extType: word16)
    ensures FirstOf(es, extType).NotFound? <==> forall j :: 0 <= j < |es| ==> es[j].extType != extType
    ensures !FirstOf(es, extType).Malformed?
  {
    if es != [] {
      FirstOfMissing(es[1..], extType);
      assert forall j :: 0 < j < |es| ==> es[j] == es[1..][j - 1];
    }
  }
}
