/** `TextChunk`: an `iTXt` chunk laid out at fixed offsets. The 106-byte header holds the
    keyword's name in bytes 0 to 79 (zero-padded), the compression flag in byte 81 and the
    language in bytes 83 to 102; the text's UTF-8 bytes follow from byte 106. The base class
    becomes the `chunk` field, whose buffer `CopyTo` replaces. */
module TextChunks {
  import opened Common
  import Memory
  import opened Streams
  import opened Chunks
  import opened Utf8

  datatype TextKeyword = COMMENT | TITLE | SOFTWARE

  /** `Enum.GetName(keyword)`. */
  function KeywordName(k: TextKeyword): (s: string)
    ensures 5 <= |s| <= 8 && forall i :: 0 <= i < |s| ==> 'A' <= s[i] <= 'Z'
  {
    match k
    case COMMENT => "COMMENT"
    case TITLE => "TITLE"
    case SOFTWARE => "SOFTWARE"
  }

  /** A keyword's name is ASCII, so it always fits the 80-byte field. */
  lemma KeywordFits(k: TextKeyword)
    ensures |Encode(KeywordName(k))| <= 8
    ensures forall i :: 0 <= i < |Encode(KeywordName(k))| ==> Encode(KeywordName(k))[i] != 0
  {
    EncodeAscii(KeywordName(k));
  }

  /** The characters the UTF-8 encoder gets into `capacity` bytes: it encodes whole
      characters from the front and stops at the first one whose bytes no longer fit. */
  function FitChars(chars: string, capacity: nat): (r: string)
    ensures |Encode(r)| <= capacity && r <= chars
  {
    if chars == [] then []
    else
      var n := |EncodeChar(chars[0])|;
      if n <= capacity then
        var rest := FitChars(chars[1..], capacity - n);
        assert ([chars[0]] + rest)[1..] == rest;
        [chars[0]] + rest
      else []
  }

  /** The characters that fit are the whole string when its encoding fits, and otherwise the
      longest prefix whose encoding fits: one more character would not. */
  lemma {:induction false} FitCharsLongest(chars: string, capacity: nat)
    ensures |Encode(chars)| <= capacity ==> FitChars(chars, capacity) == chars
    ensures |Encode(chars)| > capacity ==> var k := |FitChars(chars, capacity)|;
      k < |chars| && |Encode(chars[..k + 1])| > capacity
  {
    if chars != [] {
      var n := |EncodeChar(chars[0])|;
      if n <= capacity {
        FitCharsLongest(chars[1..], capacity - n);
        var k := |FitChars(chars, capacity)|;
        if |Encode(chars)| > capacity {
          assert chars[..k + 1][1..] == chars[1..][..k];
        }
      } else {
        assert Encode(chars[..1]) == EncodeChar(chars[0]) + Encode([]);
      }
    }
  }

  /** `Encoding.UTF8.TryGetBytes(chars, bytes)` into a span of `capacity` bytes: it succeeds
      exactly when the encoding fits. Either way the span receives the bytes of the characters
      that fit, which on success are the whole encoding. */
  function TryGetBytes(chars: string, capacity: nat): (r: (bool, seq<byte>))
    ensures r.0 <==> |Encode(chars)| <= capacity
    ensures r.0 ==> r.1 == Encode(chars)
    ensures |r.1| <= capacity && r.1 == Encode(FitChars(chars, capacity))
  {
    FitCharsLongest(chars, capacity);
    (|Encode(chars)| <= capacity, Encode(FitChars(chars, capacity)))
  }

  /** The bytes the language field receives: those of the characters of the language that
      fit its 20 bytes, all of them when its encoding fits. */
  function LanguageField(lang: string): (b: seq<byte>)
    ensures |b| <= 20
    ensures |Encode(lang)| <= 20 ==> b == Encode(lang)
  {
    FitCharsLongest(lang, 20);
    Encode(FitChars(lang, 20))
  }

  /** The 106-byte header. */
  function Header(k: TextKeyword, compress: bool, lang: string): (h: seq<byte>)
    ensures |h| == 106
  {
    KeywordFits(k);
    Layout(Encode(KeywordName(k)), if compress then 1 else 0, LanguageField(lang))
  }

  /** The header's layout for given keyword bytes, flag byte and language bytes. */
  function Layout(kw: seq<byte>, flag: byte, lb: seq<byte>): (h: seq<byte>)
    requires |kw| <= 80 && |lb| <= 20
    ensures |h| == 106
  {
    seq(106, i requires 0 <= i < 106 =>
      if i < |kw| then kw[i]
      else if i == 81 then flag
      else if 83 <= i < 83 + |lb| then lb[i - 83]
      else 0)
  }

  /** The steps of `CopyTo`'s header: the keyword over zeros, the flag at 81, and then the
      language bytes at 83, if any, give the layout. */
  lemma LayoutSteps(kw: seq<byte>, flag: byte, lb: seq<byte>)
    requires |kw| <= 8 && |lb| <= 20
    ensures var base := (kw + seq(106, _ => 0)[|kw|..])[81 := flag];
      |base| == 106 && base == Layout(kw, flag, []) && base[..83] + lb + base[83 + |lb|..] == Layout(kw, flag, lb)
  {
    var base := (kw + seq(106, _ => 0)[|kw|..])[81 := flag];
    assert base == Layout(kw, flag, []);
    assert base[..83] + lb + base[83 + |lb|..] == Layout(kw, flag, lb);
  }

  /** The chunk's payload. */
  function TextPayload(k: TextKeyword, compress: bool, lang: string, text: string): (p: seq<byte>)
    ensures |p| == 106 + |Encode(text)|
  {
    Header(k, compress, lang) + Encode(text)
  }

  /** The bytes of `field` before its first zero. */
  function UntilZero(field: seq<byte>): (r: seq<byte>)
    ensures |r| <= |field|
  {
    if field == [] || field[0] == 0 then [] else [field[0]] + UntilZero(field[1..])
  }

  datatype TextInfo = TextInfo(keyword: string, compressed: bool, language: string, text: string)

  /** The reference reading of the layout: the zero-terminated keyword and language fields,
      the flag byte and the UTF-8 text. */
  function ParseText(payload: seq<byte>): Option<TextInfo>
  {
    if |payload| < 106 then None
    else
      match (Decode(UntilZero(payload[..80])), Decode(UntilZero(payload[83..103])), Decode(payload[106..]))
      case (Some(k), Some(l), Some(t)) => Some(TextInfo(k, payload[81] == 1, l, t))
      case _ => None
  }

  /** A zero-free prefix followed by zeros reads back as the prefix. */
  lemma {:induction false} UntilZeroPadded(field: seq<byte>, n: nat)
    requires n <= |field|
    requires forall i :: 0 <= i < n ==> field[i] != 0
    requires forall i :: n <= i < |field| ==> field[i] == 0
    ensures UntilZero(field) == field[..n]
  {
    if n > 0 {
      UntilZeroPadded(field[1..], n - 1);
      assert field[..n] == [field[0]] + field[1..][..n - 1];
    } else if field != [] {
      assert field[0] == 0;
    }
  }

  /** The language a reader gets back: its characters that fit the 20-byte field, which is
      the whole language when its encoding fits. */
  function KeptLanguage(lang: string): string
  {
    FitChars(lang, 20)
  }

  /** The payload reads back as the keyword's name, the flag, the kept language and the
      text, as long as the language contains no U+0000. */
  lemma TextRoundTrip(k: TextKeyword, compress: bool, lang: string, text: string)
    requires forall i :: 0 <= i < |lang| ==> lang[i] != '\0'
    ensures ParseText(TextPayload(k, compress, lang, text))
      == Some(TextInfo(KeywordName(k), compress, KeptLanguage(lang), text))
  {
    var p := TextPayload(k, compress, lang, text);
    assert p[..106] == Header(k, compress, lang);
    KeywordFits(k);
    assert p[81] == Header(k, compress, lang)[81] == if compress then 1 else 0;
    KeywordReadBack(k, compress, lang, p);
    LanguageReadBack(k, compress, lang, p);
    assert p[106..] == Encode(text);
    DecodeEncode(text);
  }

  /** The keyword field of a payload reads back as the keyword's name. */
  lemma KeywordReadBack(k: TextKeyword, compress: bool, lang: string, p: seq<byte>)
    requires |p| >= 106 && p[..106] == Header(k, compress, lang)
    ensures Decode(UntilZero(p[..80])) == Some(KeywordName(k))
  {
    KeywordFits(k);
    var kw := Encode(KeywordName(k));
    assert p[..80] == Header(k, compress, lang)[..80];
    KeywordFieldRead(kw, if compress then 1 else 0, LanguageField(lang));
    DecodeEncode(KeywordName(k));
  }

  /** The language field of a payload reads back as the kept language. */
  lemma LanguageReadBack(k: TextKeyword, compress: bool, lang: string, p: seq<byte>)
    requires forall i :: 0 <= i < |lang| ==> lang[i] != '\0'
    requires |p| >= 106 && p[..106] == Header(k, compress, lang)
    ensures Decode(UntilZero(p[83..103])) == Some(KeptLanguage(lang))
  {
    KeywordFits(k);
    var kept := FitChars(lang, 20);
    var lb := LanguageField(lang);
    assert forall i :: 0 <= i < |kept| ==> kept[i] == lang[i];
    EncodeNoZero(kept);
    assert p[83..103] == Header(k, compress, lang)[83..103];
    LanguageFieldRead(Encode(KeywordName(k)), if compress then 1 else 0, lb);
    DecodeEncode(kept);
  }

  /** Zero-free keyword bytes read back from the first 80 bytes of the layout. */
  lemma KeywordFieldRead(kw: seq<byte>, flag: byte, lb: seq<byte>)
    requires |kw| <= 8 && |lb| <= 20 && forall i :: 0 <= i < |kw| ==> kw[i] != 0
    ensures UntilZero(Layout(kw, flag, lb)[..80]) == kw
  {
    var field := Layout(kw, flag, lb)[..80];
    UntilZeroPadded(field, |kw|);
    assert field[..|kw|] == kw;
  }

  /** Zero-free language bytes read back from bytes 83 to 102 of the layout. */
  lemma LanguageFieldRead(kw: seq<byte>, flag: byte, lb: seq<byte>)
    requires |kw| <= 8 && |lb| <= 20 && forall i :: 0 <= i < |lb| ==> lb[i] != 0
    ensures UntilZero(Layout(kw, flag, lb)[83..103]) == lb
  {
    var field := Layout(kw, flag, lb)[83..103];
    UntilZeroPadded(field, |lb|);
    assert field[..|lb|] == lb;
  }

  /** The stack-allocated header of `CopyTo`: zeroed, then the keyword's bytes at 0, the
      flag at 81 and, for a non-empty language, the bytes its `TryGetBytes` writes at 83
      whether or not the call succeeds, whose result is discarded. */
  method HeaderInfos(keyword: TextKeyword, compress: bool, language: string) returns (headerInfos: seq<byte>)
    ensures headerInfos == Header(keyword, compress, language)
  {
    headerInfos := seq(106, _ => 0);
    var kw := Encode(KeywordName(keyword));
    KeywordFits(keyword);
    var flag: byte := if compress then 1 else 0;
    LayoutSteps(kw, flag, LanguageField(language));
    headerInfos := kw + headerInfos[|kw|..];
    headerInfos := headerInfos[81 := flag];
    if language != "" {
      var lb := TryGetBytes(language, 20).1;
      headerInfos := headerInfos[..83] + lb + headerInfos[83 + |lb|..];
    }
  }

  /** `headerInfos.CopyTo(_buffer.AsSpan(0, 106))` and `utf8Text[..written].CopyTo(_buffer.AsSpan(106,
      written))`: the buffer ends up holding the header followed by the text bytes. */
  method Place(buffer: Memory.UMem<byte>, header: seq<byte>, text: seq<byte>)
    requires Memory.Valid(buffer) && buffer.ptr != null && |header| == 106 && buffer.length == 106 + |text|
    modifies buffer.ptr
    ensures Memory.Contents(buffer) == header + text
  {
    var target := buffer.ptr;
    forall i | 0 <= i < 106 {
      target[i] := header[i];
    }
    forall i | 0 <= i < |text| {
      target[106 + i] := text[i];
    }
    assert target[..buffer.length] == header + text;
  }

  class TextChunk {
    const chunk: PNGChunk
    var keyword: TextKeyword
    var language: string
    var text: string
    var compress: bool

    ghost predicate Valid()
      reads this, chunk
    {
      chunk.name == "iTXt"
    }

    /** `new TextChunk(keyword, text, compress)`: an `iTXt` chunk over the `Invalid` buffer with
        an empty language. */
    constructor (keyword: TextKeyword, text: string, compress: bool)
      ensures Valid() && fresh(chunk) && chunk.buffer == Memory.Invalid()
      ensures this.keyword == keyword && this.text == text && this.compress == compress
      ensures language == ""
    {
      chunk := new PNGChunk.Adopt("iTXt", Memory.Invalid());
      this.keyword := keyword;
      this.text := text;
      this.compress := compress;
      language := "";
    }

    /** `CopyTo(destination)`: builds the header and the text bytes in stack buffers, fails
        with `ArgumentException` when the text needs more than 4096 bytes, otherwise replaces
        the chunk's buffer with header and text and writes the chunk. */
    method CopyTo(destination: ByteStream) returns (o: Outcome)
      requires Valid()
      modifies chunk, destination
      ensures Valid()
      ensures o.Fail? <==> |Encode(text)| > 4096
      ensures o.Fail? ==> (o.error == ArgumentError && destination.written == old(destination.written)
        && chunk.buffer == old(chunk.buffer))
      ensures o.Pass? ==> Memory.Valid(chunk.buffer) && chunk.buffer.ptr != null && fresh(chunk.buffer.ptr)
      ensures o.Pass? ==> Memory.Contents(chunk.buffer) == TextPayload(keyword, compress, language, text)
      ensures o.Pass? ==> (destination.written == old(destination.written)
        + Frame(NameField(chunk.name), TextPayload(keyword, compress, language, text)))
    {
      var headerInfos := HeaderInfos(keyword, compress, language);
      var fits, utf8Text := TryGetBytes(text, 4096).0, TryGetBytes(text, 4096).1;
      if !fits {
        return Fail(ArgumentError);
      }
      var buffer := Memory.CreateFilled<byte>(106 + |utf8Text|, 0);
      Place(buffer, headerInfos, utf8Text);
      chunk.buffer := buffer;
      chunk.CopyTo(destination);
      o := Pass;
    }
  }
}
