/**
 * The text sanitiser nested in `create_pdf`: `clean_text` runs a string through
 * Python's `latin-1` codec with the `'replace'` error handler and back, so that
 * every character ends up inside ISO/IEC 8859-1 (code points U+0000..U+00FF).
 */
module Latin1 {
  import opened Wrappers

  /** One octet of an encoded string. */
  newtype byte = x: int | 0 <= x < 256

  /** The largest code point ISO/IEC 8859-1 can represent. */
  const MaxCodePoint: int := 0xFF

  /** What the `'replace'` error handler substitutes when encoding. */
  const Replacement: char := '?'

  predicate IsLatin1(c: char) {
    c as int <= MaxCodePoint
  }

  predicate AllLatin1(s: string) {
    forall i :: 0 <= i < |s| ==> IsLatin1(s[i])
  }

  /** Encodes one character: its own code point if it fits in a byte, otherwise `'?'`. */
  function EncodeChar(c: char): byte {
    if IsLatin1(c) then c as int as byte else Replacement as int as byte
  }

  /** Decodes one byte: ISO/IEC 8859-1 maps byte n to code point n. */
  function DecodeByte(b: byte): char {
    b as int as char
  }

  /** `s.encode('latin-1', 'replace')`: one byte per code point, a `'?'` for each one out of range. */
  function Encode(s: string): (r: seq<byte>)
    ensures |r| == |s|
    ensures forall i :: 0 <= i < |s| ==> IsLatin1(s[i]) ==> r[i] as int == s[i] as int
    ensures forall i :: 0 <= i < |s| ==> !IsLatin1(s[i]) ==> r[i] as int == Replacement as int
  {
    if s == [] then [] else [EncodeChar(s[0])] + Encode(s[1..])
  }

  /** `b.decode('latin-1')`: total, one character per byte, with the byte's value as code point. */
  function Decode(b: seq<byte>): (r: string)
    ensures |r| == |b|
    ensures forall i :: 0 <= i < |b| ==> r[i] as int == b[i] as int
  {
    if b == [] then [] else [DecodeByte(b[0])] + Decode(b[1..])
  }

  /**
   * The encode/decode round trip at the heart of `clean_text`: a Latin-1 character
   * is kept, any other character becomes exactly one `'?'`.
   */
  function Clean(s: string): (r: string)
    ensures |r| == |s|
    ensures forall i :: 0 <= i < |s| ==> r[i] == if IsLatin1(s[i]) then s[i] else Replacement
    ensures AllLatin1(r)
  {
    Decode(Encode(s))
  }

  /** `clean_text(text)`: `None` and `""` give `""`, anything else is cleaned. */
  function CleanText(text: Option<string>): (r: string)
    ensures text.None? ==> r == ""
    ensures text.Some? ==> r == Clean(text.value)
  {
    match text
    case None => ""
    case Some(s) => if s == "" then "" else Clean(s)
  }

  /** Whatever `clean_text` returns is pure Latin-1. */
  lemma CleanTextLatin1(text: Option<string>)
    ensures AllLatin1(CleanText(text))
  {
  }

  /** A concatenation is pure Latin-1 exactly when both parts are. */
  lemma ConcatLatin1(a: string, b: string)
    ensures AllLatin1(a + b) <==> AllLatin1(a) && AllLatin1(b)
  {
    if AllLatin1(a + b) {
      assert forall i :: 0 <= i < |a| ==> (a + b)[i] == a[i];
      assert forall i :: 0 <= i < |b| ==> (a + b)[|a| + i] == b[i];
    }
  }

  /** Every byte decodes and encodes back to itself: decoding Latin-1 loses nothing. */
  lemma EncodeDecode(b: seq<byte>)
    ensures Encode(Decode(b)) == b
  {
    var r := Encode(Decode(b));
    assert |r| == |b|;
    forall i | 0 <= i < |b| ensures r[i] == b[i] {
      assert IsLatin1(Decode(b)[i]);
    }
  }

  /** A string survives the codec unchanged exactly when it is pure Latin-1. */
  lemma CleanFixesExactlyLatin1(s: string)
    ensures Clean(s) == s <==> AllLatin1(s)
  {
    if AllLatin1(s) {
      assert forall i :: 0 <= i < |s| ==> Clean(s)[i] == s[i];
    } else {
      var i :| 0 <= i < |s| && !IsLatin1(s[i]);
      assert Clean(s)[i] != s[i];
    }
  }

  /** Cleaning twice is cleaning once. */
  lemma CleanIdempotent(s: string)
    ensures Clean(Clean(s)) == Clean(s)
  {
    CleanFixesExactlyLatin1(Clean(s));
  }

  /** `clean_text` applied to its own result changes nothing, `None` included. */
  lemma CleanTextIdempotent(t: Option<string>)
    ensures CleanText(Some(CleanText(t))) == CleanText(t)
  {
    match t
    case None =>
    case Some(s) => CleanIdempotent(s);
  }

  /** Cleaning works character by character, so it distributes over concatenation. */
  lemma CleanConcat(a: string, b: string)
    ensures Clean(a + b) == Clean(a) + Clean(b)
  {
    var l, r := Clean(a + b), Clean(a) + Clean(b);
    assert |l| == |r|;
    forall i | 0 <= i < |l| ensures l[i] == r[i] {
      if i < |a| {
        assert (a + b)[i] == a[i];
      } else {
        assert (a + b)[i] == b[i - |a|];
      }
    }
  }

  /** `clean_text` with the smart apostrophe U+2019: it alone is replaced, by one `'?'`. */
  lemma CleanSmartQuote()
    ensures CleanText(Some("It’s up")) == "It?s up"
  {
    var s := "It’s up";
    assert Clean(s)[2] == '?';
  }
}
