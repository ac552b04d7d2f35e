/**
 * `normalizeText`: the comparison key of a name. After NFKC, a fixed chain of
 * per-character replacements: drop white space, lower-case, fold the full-width
 * period, drop the ideographic space and middle dots, shift full-width letters,
 * digits and symbols to ASCII, drop prolonged-sound marks and dashes, trim.
 */
module Normalize {
  import opened JsText

  /** `text.normalize('NFKC')`, taken as the identity: the branch where the runtime has no `normalize`. */
  function Nfkc(s: string): string { s }

  predicate IsFullWidthUpper(c: char) { '\U{FF21}' <= c <= '\U{FF3A}' }

  predicate IsFullWidthLower(c: char) { '\U{FF41}' <= c <= '\U{FF5A}' }

  predicate IsFullWidthDigit(c: char) { '\U{FF10}' <= c <= '\U{FF19}' }

  /** The full-width symbols the source shifts to ASCII: ！＠＃＄％＾＆＊（）＿＋－＝｛｝｜：＂；＇＜＞？，．／ */
  predicate IsFullWidthSymbol(c: char)
  {
    || c == '\U{FF01}' || c == '\U{FF20}' || c == '\U{FF03}' || c == '\U{FF04}' || c == '\U{FF05}'
    || c == '\U{FF3E}' || c == '\U{FF06}' || c == '\U{FF0A}' || c == '\U{FF08}' || c == '\U{FF09}'
    || c == '\U{FF3F}' || c == '\U{FF0B}' || c == '\U{FF0D}' || c == '\U{FF1D}' || c == '\U{FF5B}'
    || c == '\U{FF5D}' || c == '\U{FF5C}' || c == '\U{FF1A}' || c == '\U{FF02}' || c == '\U{FF1B}'
    || c == '\U{FF07}' || c == '\U{FF1C}' || c == '\U{FF1E}' || c == '\U{FF1F}' || c == '\U{FF0C}'
    || c == '\U{FF0E}' || c == '\U{FF0F}'
  }

  /** The capitals the model of `toLowerCase` maps: ASCII, Latin-1 (except U+00D7) and full-width Latin. */
  predicate IsUpper(c: char)
  {
    ('A' <= c <= 'Z') || ('\U{00C0}' <= c <= '\U{00DE}' && c != '\U{00D7}') || IsFullWidthUpper(c)
  }

  /** U+30FB katakana middle dot and U+FF65 half-width middle dot. */
  predicate IsMiddleDot(c: char) { c == '\U{30FB}' || c == '\U{FF65}' }

  /** U+30FC and U+FF70 prolonged-sound marks, U+30A0 double hyphen, ASCII hyphen-minus. */
  predicate IsProlongedMark(c: char) { c == '\U{30FC}' || c == '\U{FF70}' || c == '\U{30A0}' || c == '-' }

  /** U+2010-2015 hyphens and dashes and U+2212 minus sign. */
  predicate IsDash(c: char) { ('\U{2010}' <= c <= '\U{2015}') || c == '\U{2212}' }

  predicate IsIdeographicSpace(c: char) { c == '\U{3000}' }

  /** `toLowerCase`, one character at a time. */
  function LowerChar(c: char): char
  {
    if IsUpper(c) then (c as int + 0x20) as char else c
  }

  /** `String.fromCharCode(c.charCodeAt(0) - 0xFEE0)` on the full-width ASCII block. */
  function ToHalfWidth(c: char): (h: char)
    requires '\U{FF01}' <= c <= '\U{FF5E}'
    ensures '!' <= h <= '~'
  {
    (c as int - 0xFEE0) as char
  }

  function FoldPeriod(c: char): char { if c == '\U{FF0E}' then '.' else c }

  function UpperToHalf(c: char): char { if IsFullWidthUpper(c) then ToHalfWidth(c) else c }

  function LowerToHalf(c: char): char { if IsFullWidthLower(c) then ToHalfWidth(c) else c }

  function DigitToHalf(c: char): char { if IsFullWidthDigit(c) then ToHalfWidth(c) else c }

  function SymbolToHalf(c: char): char
  {
    if IsFullWidthSymbol(c) then ToHalfWidth(c) else c
  }

  /** The replacement chain between NFKC and the final trim, stage by stage as the source applies it. */
  function Fold(s: string): string
  {
    var noSpace := RemoveWhere(IsSpace, s);
    var lower := MapChars(LowerChar, noSpace);
    var period := MapChars(FoldPeriod, lower);
    var noIdeoSpace := RemoveWhere(IsIdeographicSpace, period);
    var noDots := RemoveWhere(IsMiddleDot, noIdeoSpace);
    var upper := MapChars(UpperToHalf, noDots);
    var letters := MapChars(LowerToHalf, upper);
    var digits := MapChars(DigitToHalf, letters);
    var symbols := MapChars(SymbolToHalf, digits);
    var noMarks := RemoveWhere(IsProlongedMark, symbols);
    RemoveWhere(IsDash, noMarks)
  }

  /** The characters a normalised key may hold. */
  predicate IsKeyChar(d: char)
  {
    && !IsSpace(d)
    && !IsUpper(d)
    && d != '\U{FF0E}' && !IsIdeographicSpace(d) && !IsMiddleDot(d)
    && !IsFullWidthUpper(d) && !IsFullWidthLower(d) && !IsFullWidthDigit(d)
    && !IsFullWidthSymbol(d)
    && !IsProlongedMark(d) && !IsDash(d)
  }

  predicate IsKey(s: string)
  {
    forall i :: 0 <= i < |s| ==> IsKeyChar(s[i])
  }

  /** `normalizeText`. */
  function NormalizeText(text: string): (r: string)
    ensures text == [] ==> r == []
    ensures IsKey(r)
  {
    if text == [] then []
    else
      FoldIsKey(Nfkc(text));
      Trim(Fold(Nfkc(text)))
  }

  /** Every stage works character by character, so the chain distributes over concatenation. */
  lemma FoldAppend(a: string, b: string)
    ensures Fold(a + b) == Fold(a) + Fold(b)
  {
    RemoveWhereAppend(IsSpace, a, b);
    var a1, b1 := RemoveWhere(IsSpace, a), RemoveWhere(IsSpace, b);
    MapCharsAppend(LowerChar, a1, b1);
    var a2, b2 := MapChars(LowerChar, a1), MapChars(LowerChar, b1);
    MapCharsAppend(FoldPeriod, a2, b2);
    var a3, b3 := MapChars(FoldPeriod, a2), MapChars(FoldPeriod, b2);
    RemoveWhereAppend(IsIdeographicSpace, a3, b3);
    var a4, b4 := RemoveWhere(IsIdeographicSpace, a3), RemoveWhere(IsIdeographicSpace, b3);
    RemoveWhereAppend(IsMiddleDot, a4, b4);
    var a5, b5 := RemoveWhere(IsMiddleDot, a4), RemoveWhere(IsMiddleDot, b4);
    MapCharsAppend(UpperToHalf, a5, b5);
    var a6, b6 := MapChars(UpperToHalf, a5), MapChars(UpperToHalf, b5);
    MapCharsAppend(LowerToHalf, a6, b6);
    var a7, b7 := MapChars(LowerToHalf, a6), MapChars(LowerToHalf, b6);
    MapCharsAppend(DigitToHalf, a7, b7);
    var a8, b8 := MapChars(DigitToHalf, a7), MapChars(DigitToHalf, b7);
    MapCharsAppend(SymbolToHalf, a8, b8);
    var a9, b9 := MapChars(SymbolToHalf, a8), MapChars(SymbolToHalf, b8);
    RemoveWhereAppend(IsProlongedMark, a9, b9);
    var a10, b10 := RemoveWhere(IsProlongedMark, a9), RemoveWhere(IsProlongedMark, b9);
    RemoveWhereAppend(IsDash, a10, b10);
  }

  /** What the chain makes of one character: nothing, or one character. */
  function FoldChar(c: char): string
  {
    if IsSpace(c) then []
    else
      var l := FoldPeriod(LowerChar(c));
      if IsIdeographicSpace(l) || IsMiddleDot(l) then []
      else
        var h := SymbolToHalf(DigitToHalf(LowerToHalf(UpperToHalf(l))));
        if IsProlongedMark(h) || IsDash(h) then [] else [h]
  }

  lemma MapOne(f: char -> char, c: char)
    ensures MapChars(f, [c]) == [f(c)]
  {
  }

  lemma RemoveOne(p: char -> bool, c: char)
    ensures RemoveWhere(p, [c]) == if p(c) then [] else [c]
  {
    assert [c][1..] == [];
  }

  /** On one character the chain computes `FoldChar`. */
  lemma FoldSingle(c: char)
    ensures Fold([c]) == FoldChar(c)
  {
    RemoveOne(IsSpace, c);
    if !IsSpace(c) {
      var l0 := LowerChar(c);
      MapOne(LowerChar, c);
      var l := FoldPeriod(l0);
      MapOne(FoldPeriod, l0);
      RemoveOne(IsIdeographicSpace, l);
      if !IsIdeographicSpace(l) {
        RemoveOne(IsMiddleDot, l);
        if !IsMiddleDot(l) {
          var h1 := UpperToHalf(l);
          MapOne(UpperToHalf, l);
          var h2 := LowerToHalf(h1);
          MapOne(LowerToHalf, h1);
          var h3 := DigitToHalf(h2);
          MapOne(DigitToHalf, h2);
          var h := SymbolToHalf(h3);
          MapOne(SymbolToHalf, h3);
          RemoveOne(IsProlongedMark, h);
          if !IsProlongedMark(h) {
            RemoveOne(IsDash, h);
          }
        }
      }
    }
  }

  /** A key character passes through the chain unchanged. */
  lemma FoldCharKeeps(d: char)
    requires IsKeyChar(d)
    ensures FoldChar(d) == [d]
  {
    assert LowerChar(d) == d;
    assert FoldPeriod(d) == d;
  }

  /** What the chain keeps of a character is a key character. */
  lemma FoldCharIsKey(c: char)
    ensures |FoldChar(c)| <= 1
    ensures FoldChar(c) != [] ==> IsKeyChar(FoldChar(c)[0])
  {
    if !IsSpace(c) {
      var l := FoldPeriod(LowerChar(c));
      LoweredChar(c);
      if !IsIdeographicSpace(l) && !IsMiddleDot(l) {
        ShiftedChar(l);
      }
    }
  }

  /** After lower-casing and the period fold, no capital, space or full-width period is left. */
  lemma LoweredChar(c: char)
    requires !IsSpace(c)
    ensures var l := FoldPeriod(LowerChar(c));
            !IsSpace(l) && !IsUpper(l) && l != '\U{FF0E}'
  {
    var l0 := LowerChar(c);
    if IsUpper(c) {
      assert !IsSpace(l0) && !IsUpper(l0) && l0 != '\U{FF0E}';
    } else {
      assert l0 == c;
    }
  }

  /** The width shifts leave a key character, a prolonged-sound mark or a dash. */
  lemma ShiftedChar(l: char)
    requires !IsSpace(l) && !IsUpper(l) && l != '\U{FF0E}' && !IsIdeographicSpace(l) && !IsMiddleDot(l)
    ensures var h := SymbolToHalf(DigitToHalf(LowerToHalf(UpperToHalf(l))));
            IsProlongedMark(h) || IsDash(h) || IsKeyChar(h)
  {
    assert UpperToHalf(l) == l;
    if IsFullWidthLower(l) {
      AsciiKeyChar(LowerToHalf(l));
    } else if IsFullWidthDigit(l) {
      AsciiKeyChar(DigitToHalf(l));
    } else if IsFullWidthSymbol(l) {
      assert !IsFullWidthUpper(l);
      AsciiKeyChar(SymbolToHalf(l));
    }
  }

  /** A printable ASCII character other than a capital is a key character. */
  lemma AsciiKeyChar(h: char)
    requires '!' <= h <= '~' && !('A' <= h <= 'Z')
    ensures IsKeyChar(h) || IsProlongedMark(h)
  {
  }

  /** What the chain makes of one character: nothing, or one key character that the chain leaves alone. */
  lemma FoldOne(c: char)
    ensures |Fold([c])| <= 1
    ensures Fold([c]) != [] ==> IsKeyChar(Fold([c])[0]) && Fold(Fold([c])) == Fold([c])
  {
    FoldSingle(c);
    FoldCharIsKey(c);
    var x := Fold([c]);
    if x != [] {
      var d := x[0];
      assert x == [d];
      FoldSingle(d);
      FoldCharKeeps(d);
    }
  }

  lemma FoldIsKey(s: string)
    ensures IsKey(Fold(s)) && IsTrimmed(Fold(s))
  {
    FoldByChar(s);
    FoldEachIsKey(s);
  }

  lemma {:induction false} FoldEachIsKey(s: string)
    ensures IsKey(FoldEach(s)) && IsTrimmed(FoldEach(s))
  {
    if s != [] {
      FoldEachIsKey(s[1..]);
      FoldCharIsKey(s[0]);
      KeyAppend(FoldChar(s[0]), FoldEach(s[1..]));
    }
  }

  lemma KeyAppend(a: string, b: string)
    requires IsKey(a) && IsKey(b)
    ensures IsKey(a + b) && IsTrimmed(a + b)
  {
    var ab := a + b;
    assert forall i :: 0 <= i < |ab| ==> ab[i] == if i < |a| then a[i] else b[i - |a|];
  }

  /** The key is the replacement chain's result: the final trim has nothing left to remove. */
  lemma NormalizeIsFold(text: string)
    ensures NormalizeText(text) == Fold(text)
  {
    FoldIsKey(text);
    if text == [] {
      assert Fold(text) == [];
    }
  }

  /** The chain character by character. */
  function FoldEach(s: string): string
  {
    if s == [] then [] else FoldChar(s[0]) + FoldEach(s[1..])
  }

  lemma {:induction false} FoldByChar(s: string)
    ensures Fold(s) == FoldEach(s)
  {
    if s == [] {
      assert Fold(s) == [];
    } else {
      FoldByChar(s[1..]);
      assert s == [s[0]] + s[1..];
      FoldAppend([s[0]], s[1..]);
      FoldSingle(s[0]);
    }
  }

  lemma {:induction false} FoldIdempotent(s: string)
    ensures Fold(Fold(s)) == Fold(s)
  {
    if s == [] {
      assert Fold(s) == [];
    } else {
      FoldIdempotent(s[1..]);
      assert s == [s[0]] + s[1..];
      FoldAppend([s[0]], s[1..]);
      FoldAppend(Fold([s[0]]), Fold(s[1..]));
      FoldOne(s[0]);
      if Fold([s[0]]) == [] {
        assert Fold([]) == [];
      }
    }
  }

  /** Normalising a key again changes nothing. */
  lemma NormalizeIdempotent(text: string)
    ensures NormalizeText(NormalizeText(text)) == NormalizeText(text)
  {
    NormalizeIsFold(text);
    NormalizeIsFold(Fold(text));
    FoldIdempotent(text);
  }

  lemma {:induction false} FoldEachAppend(a: string, b: string)
    ensures FoldEach(a + b) == FoldEach(a) + FoldEach(b)
  {
    if a != [] {
      assert (a + b)[0] == a[0];
      assert (a + b)[1..] == a[1..] + b;
      FoldEachAppend(a[1..], b);
    } else {
      assert a + b == b;
    }
  }

  lemma {:induction false} FoldEachKeeps(s: string)
    requires IsKey(s)
    ensures FoldEach(s) == s
  {
    if s != [] {
      FoldCharKeeps(s[0]);
      FoldEachKeeps(s[1..]);
    }
  }

  /** A key normalises to itself. */
  lemma NormalizeKeeps(s: string)
    requires IsKey(s)
    ensures NormalizeText(s) == s
  {
    NormalizeByChar(s);
    FoldEachKeeps(s);
  }

  /** On one character, the key is what the chain makes of it. */
  lemma NormalizeOne(c: char)
    ensures NormalizeText([c]) == FoldChar(c)
  {
    NormalizeIsFold([c]);
    FoldSingle(c);
  }

  /**
   * Full-width capitals and lower-case letters come out as ASCII lower-case letters,
   * full-width digits as ASCII digits, ASCII capitals lower-cased.
   */
  lemma FullWidthAlphanumerics(c: char)
    ensures IsFullWidthUpper(c) ==> NormalizeText([c]) == [(c as int - 0xFEE0 + 0x20) as char]
    ensures IsFullWidthLower(c) ==> NormalizeText([c]) == [(c as int - 0xFEE0) as char]
    ensures IsFullWidthDigit(c) ==> NormalizeText([c]) == [(c as int - 0xFEE0) as char]
    ensures 'A' <= c <= 'Z' ==> NormalizeText([c]) == [(c as int + 0x20) as char]
  {
    NormalizeOne(c);
    if IsFullWidthUpper(c) {
      FullWidthUpperChar(c);
    } else if IsFullWidthLower(c) {
      FullWidthLowerChar(c);
    } else if IsFullWidthDigit(c) {
      FullWidthDigitChar(c);
    } else if 'A' <= c <= 'Z' {
      AsciiUpperChar(c);
    }
  }

  lemma FullWidthUpperChar(c: char)
    requires IsFullWidthUpper(c)
    ensures FoldChar(c) == [(c as int - 0xFEE0 + 0x20) as char]
  {
    var l := LowerChar(c);
    assert IsFullWidthLower(l) && l as int == c as int + 0x20;
    assert !IsSpace(c) && FoldPeriod(l) == l;
    FullWidthLowerChar(l);
  }

  lemma FullWidthLowerChar(c: char)
    requires IsFullWidthLower(c)
    ensures FoldChar(c) == [(c as int - 0xFEE0) as char]
  {
    var h := (c as int - 0xFEE0) as char;
    assert !IsSpace(c);
    assert LowerChar(c) == c && FoldPeriod(c) == c;
    assert !IsIdeographicSpace(c) && !IsMiddleDot(c);
    assert UpperToHalf(c) == c && LowerToHalf(c) == h;
    assert DigitToHalf(h) == h && SymbolToHalf(h) == h;
    assert !IsProlongedMark(h) && !IsDash(h);
  }

  lemma FullWidthDigitChar(c: char)
    requires IsFullWidthDigit(c)
    ensures FoldChar(c) == [(c as int - 0xFEE0) as char]
  {
    var h := (c as int - 0xFEE0) as char;
    assert !IsSpace(c);
    assert LowerChar(c) == c && FoldPeriod(c) == c;
    assert !IsIdeographicSpace(c) && !IsMiddleDot(c);
    assert UpperToHalf(c) == c && LowerToHalf(c) == c && DigitToHalf(c) == h;
    assert SymbolToHalf(h) == h;
    assert !IsProlongedMark(h) && !IsDash(h);
  }

  lemma AsciiUpperChar(c: char)
    requires 'A' <= c <= 'Z'
    ensures FoldChar(c) == [(c as int + 0x20) as char]
  {
    var l := (c as int + 0x20) as char;
    assert !IsSpace(c);
    assert LowerChar(c) == l && FoldPeriod(l) == l;
    assert !IsIdeographicSpace(l) && !IsMiddleDot(l);
    assert UpperToHalf(l) == l && LowerToHalf(l) == l && DigitToHalf(l) == l && SymbolToHalf(l) == l;
    assert !IsProlongedMark(l) && !IsDash(l);
  }

  /** The key character by character. */
  lemma NormalizeByChar(text: string)
    ensures NormalizeText(text) == FoldEach(text)
  {
    NormalizeIsFold(text);
    FoldByChar(text);
  }

  /** Full-width and half-width spellings get the same key. */
  lemma WidthInsensitive(wide: string, narrow: string)
    requires wide == "Ａ１ａ" && narrow == "A1a"
    ensures NormalizeText(wide) == NormalizeText(narrow) == "a1a"
  {
    NormalizeByChar(wide);
    NormalizeByChar(narrow);
    WideCharsFold(wide);
    NarrowCharsFold(narrow);
  }

  lemma WideCharsFold(s: string)
    requires s == "Ａ１ａ"
    ensures FoldEach(s) == "a1a"
  {
    FoldThree(s);
    FullWidthUpperChar(s[0]);
    FullWidthDigitChar(s[1]);
    FullWidthLowerChar(s[2]);
  }

  lemma NarrowCharsFold(s: string)
    requires s == "A1a"
    ensures FoldEach(s) == "a1a"
  {
    FoldThree(s);
    AsciiUpperChar(s[0]);
    FoldCharKeeps(s[1]);
    FoldCharKeeps(s[2]);
  }

  /**
   * The two spellings of one care-home name found in an order file and a carrier
   * manifest (ASCII against full-width letters, a prolonged-sound mark against a
   * full-width hyphen) get the same key.
   */
  lemma CareHomeKeys(orderName: string, manifestName: string)
    requires orderName == "CL1松原天美我堂・ショートステイ"
    requires manifestName == "ＣＬ１松原天美我堂・ショ\U{FF0D}トステイ"
    ensures NormalizeText(orderName) == NormalizeText(manifestName) == "cl1松原天美我堂ショトステイ"
  {
    OrderSpelling(orderName);
    ManifestSpelling(manifestName);
  }

  lemma OrderSpelling(name: string)
    requires name == "CL1松原天美我堂・ショートステイ"
    ensures NormalizeText(name) == "cl1松原天美我堂ショトステイ"
  {
    CareHomeKey(name, "CL1", "松原天美我堂", "・", "ショ", "ー", "トステイ", "cl1松原天美我堂ショトステイ");
  }

  lemma ManifestSpelling(name: string)
    requires name == "ＣＬ１松原天美我堂・ショ\U{FF0D}トステイ"
    ensures NormalizeText(name) == "cl1松原天美我堂ショトステイ"
  {
    CareHomeKey(name, "ＣＬ１", "松原天美我堂", "・", "ショ", "\U{FF0D}", "トステイ", "cl1松原天美我堂ショトステイ");
  }

  /** One spelling of the care-home name, assembled from its pieces. */
  lemma CareHomeKey(name: string, prefix: string, mid: string, dot: string, sho: string, mark: string,
                    tail: string, key: string)
    requires prefix == "CL1" || prefix == "ＣＬ１"
    requires mark == "ー" || mark == "\U{FF0D}"
    requires mid == "松原天美我堂" && dot == "・" && sho == "ショ" && tail == "トステイ"
    requires name == prefix + mid + dot + sho + mark + tail
    requires key == "cl1" + mid + sho + tail
    ensures NormalizeText(name) == key
  {
    CareHomeFold(name, prefix, mid, dot, sho, mark, tail, key);
    NormalizeByChar(name);
  }

  lemma CareHomeFold(name: string, prefix: string, mid: string, dot: string, sho: string, mark: string,
                     tail: string, key: string)
    requires prefix == "CL1" || prefix == "ＣＬ１"
    requires mark == "ー" || mark == "\U{FF0D}"
    requires mid == "松原天美我堂" && dot == "・" && sho == "ショ" && tail == "トステイ"
    requires name == prefix + mid + dot + sho + mark + tail
    requires key == "cl1" + mid + sho + tail
    ensures FoldEach(name) == key
  {
    PrefixFolds(prefix);
    WideLettersFold(mid);
    DotDropped(dot, sho);
    MarkDropped(mark, tail);
    FoldPieces(name, prefix, mid, dot, sho, mark, tail, "cl1", mid, sho, tail);
  }

  lemma FoldPieces(name: string, p1: string, p2: string, p3: string, p4: string, p5: string, p6: string,
                   f1: string, f2: string, f4: string, f6: string)
    requires name == p1 + p2 + p3 + p4 + p5 + p6
    requires FoldEach(p1) == f1 && FoldEach(p2) == f2 && FoldEach(p3 + p4) == f4 && FoldEach(p5 + p6) == f6
    ensures FoldEach(name) == f1 + f2 + f4 + f6
  {
    Regroup(p1, p2, p3, p4, p5, p6);
    FoldFour(name, p1, p2, p3 + p4, p5 + p6, f1, f2, f4, f6);
  }

  /** The middle dot in front of a key piece vanishes. */
  lemma DotDropped(dot: string, sho: string)
    requires dot == "・" && sho == "ショ"
    ensures FoldEach(dot + sho) == sho
  {
    assert FoldEach(dot) == FoldChar('\U{30FB}') == [];
    WideLettersFold(sho);
    FoldEachAppend(dot, sho);
  }

  /** The long-vowel mark, or the full-width hyphen-minus standing for it, vanishes. */
  lemma MarkDropped(mark: string, tail: string)
    requires (mark == "ー" || mark == "\U{FF0D}") && tail == "トステイ"
    ensures FoldEach(mark + tail) == tail
  {
    assert FoldEach(mark) == FoldChar(mark[0]);
    assert FoldChar('\U{30FC}') == [] && FoldChar('\U{FF0D}') == [];
    WideLettersFold(tail);
    FoldEachAppend(mark, tail);
  }

  lemma Regroup(p1: string, p2: string, p3: string, p4: string, p5: string, p6: string)
    ensures p1 + p2 + p3 + p4 + p5 + p6 == p1 + p2 + (p3 + p4) + (p5 + p6)
  {
  }

  /** Folding a name assembled from four pieces, from what each piece folds to. */
  lemma FoldFour(name: string, p1: string, p2: string, p3: string, p4: string,
                 f1: string, f2: string, f3: string, f4: string)
    requires name == p1 + p2 + p3 + p4
    requires FoldEach(p1) == f1 && FoldEach(p2) == f2 && FoldEach(p3) == f3 && FoldEach(p4) == f4
    ensures FoldEach(name) == f1 + f2 + f3 + f4
  {
    FoldTriple(p1 + p2 + p3, p1, p2, p3, f1, f2, f3);
    FoldTwo(name, p1 + p2 + p3, p4, f1 + f2 + f3, f4);
  }

  lemma FoldTriple(name: string, p1: string, p2: string, p3: string, f1: string, f2: string, f3: string)
    requires name == p1 + p2 + p3
    requires FoldEach(p1) == f1 && FoldEach(p2) == f2 && FoldEach(p3) == f3
    ensures FoldEach(name) == f1 + f2 + f3
  {
    FoldTwo(p1 + p2, p1, p2, f1, f2);
    FoldTwo(name, p1 + p2, p3, f1 + f2, f3);
  }

  /** Folding a name assembled from two pieces, from what each piece folds to. */
  lemma FoldTwo(name: string, p1: string, p2: string, f1: string, f2: string)
    requires name == p1 + p2 && FoldEach(p1) == f1 && FoldEach(p2) == f2
    ensures FoldEach(name) == f1 + f2
  {
    FoldEachAppend(p1, p2);
  }

  /** The letters-and-digit prefix folds to the same three characters in either width. */
  lemma PrefixFolds(prefix: string)
    requires prefix == "CL1" || prefix == "ＣＬ１"
    ensures FoldEach(prefix) == "cl1"
  {
    if prefix == "CL1" {
      AsciiPrefix(prefix);
    } else {
      WidePrefix(prefix);
    }
  }

  lemma AsciiPrefix(prefix: string)
    requires prefix == "CL1"
    ensures FoldEach(prefix) == "cl1"
  {
    FoldThree(prefix);
    AsciiUpperChar(prefix[0]);
    AsciiUpperChar(prefix[1]);
    FoldCharKeeps(prefix[2]);
  }

  lemma WidePrefix(prefix: string)
    requires prefix == "ＣＬ１"
    ensures FoldEach(prefix) == "cl1"
  {
    FoldThree(prefix);
    FullWidthUpperChar(prefix[0]);
    FullWidthUpperChar(prefix[1]);
    FullWidthDigitChar(prefix[2]);
  }

  lemma FoldThree(s: string)
    requires |s| == 3
    ensures FoldEach(s) == FoldChar(s[0]) + FoldChar(s[1]) + FoldChar(s[2])
  {
    assert s[2..][1..] == s[3..] == [];
    assert FoldEach(s[2..]) == FoldChar(s[2]) + FoldEach(s[3..]);
    assert FoldEach(s[1..]) == FoldChar(s[1]) + FoldEach(s[2..]) by { assert s[1..][1..] == s[2..]; }
  }

  /** Kana and the common ideographs: none is touched by the chain. */
  predicate IsWideLetter(c: char)
  {
    ('\U{3041}' <= c <= '\U{309F}') || ('\U{30A1}' <= c <= '\U{30FA}') || ('\U{4E00}' <= c <= '\U{9FFF}')
  }

  /** Kana, ideographs and printable ASCII other than capitals and the hyphen-minus. */
  predicate IsPlainChar(c: char)
  {
    IsWideLetter(c) || ('!' <= c <= '~' && !('A' <= c <= 'Z') && c != '-')
  }

  lemma PlainKeyChar(c: char)
    requires IsPlainChar(c)
    ensures IsKeyChar(c)
  {
  }

  /** A string of plain characters is a key. */
  lemma PlainIsKey(s: string)
    requires forall i :: 0 <= i < |s| ==> IsPlainChar(s[i])
    ensures IsKey(s)
  {
    forall i | 0 <= i < |s| ensures IsKeyChar(s[i]) {
      PlainKeyChar(s[i]);
    }
  }

  /** A string of kana and ideographs is its own key. */
  lemma WideLettersFold(s: string)
    requires forall i :: 0 <= i < |s| ==> IsWideLetter(s[i])
    ensures FoldEach(s) == s
  {
    PlainIsKey(s);
    FoldEachKeeps(s);
  }
}
