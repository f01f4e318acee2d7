/**
  The fallback finding codes: `slugParts` lowers its parts, keeps a-z and 0-9 and
  squeezes everything else into single hyphens. Proved to be the words of the parts
  joined by hyphens, and to leave exactly the slugs unchanged.
*/
module Slug {
  predicate Alnum(c: char) {
    'a' <= c <= 'z' || '0' <= c <= '9'
  }

  /** The 26 small letters and the ten digits, by their codes. */
  lemma SlugLetters(c: char)
    ensures Alnum(c) <==> 97 <= c as int < 97 + 26 || 48 <= c as int < 48 + 10
  {
  }

  /**
    Go's rune lowering as far as slugs can tell: ASCII letters, and the two other
    runes (dotted capital I, Kelvin sign) whose lower case is an ASCII letter. Every
    other rune stays outside a-z and 0-9, so its lower case does not matter.
  */
  function ToLower(c: char): (r: char)
    ensures Alnum(c) || c == '-' ==> r == c
    ensures 'A' <= c <= 'Z' ==> 'a' <= r <= 'z' && r as int - 'a' as int == c as int - 'A' as int
  {
    if 'A' <= c <= 'Z' then ((c as int) + 32) as char
    else if c == '\U{0130}' then 'i'
    else if c == '\U{212A}' then 'k'
    else c
  }

  /** Two runes beyond ASCII are lowered into the alphabet, to i and k; no others are. */
  lemma LoweredIntoAlphabet(c: char)
    ensures Alnum(ToLower(c)) && !Alnum(c) && !('A' <= c <= 'Z') <==> c as int == 0x130 || c as int == 0x212A
    ensures c as int == 0x130 ==> ToLower(c) == 'i'
    ensures c as int == 0x212A ==> ToLower(c) == 'k'
  {
  }

  // ---------- The words of a text ----------

  /** Non-empty runs of letters and digits. */
  ghost predicate AllWords(words: seq<string>) {
    forall k :: 0 <= k < |words| ==> words[k] != "" && forall c :: c in words[k] ==> Alnum(c)
  }

  /** The maximal runs of letters and digits read so far; `open` says the last one may still grow. */
  datatype Scan = Scan(words: seq<string>, open: bool)

  /** One more rune: it ends the last word, makes it longer, or starts another. */
  function Read(r: Scan, c: char): Scan
    requires r.open ==> r.words != []
  {
    var n := |r.words| - 1;
    if !Alnum(c) then r.(open := false)
    else if r.open then Scan(r.words[..n] + [r.words[n] + [c]], true)
    else Scan(r.words + [[c]], true)
  }

  function ScanWords(s: string): (r: Scan)
    ensures AllWords(r.words)
    ensures r.open ==> r.words != []
  {
    if s == "" then Scan([], false) else Read(ScanWords(s[..|s| - 1]), s[|s| - 1])
  }

  function Join(words: seq<string>): string {
    if words == [] then ""
    else if |words| == 1 then words[0]
    else Join(words[..|words| - 1]) + "-" + words[|words| - 1]
  }

  function Lowered(s: string, lower: char -> char): (r: string)
    ensures |r| == |s|
  {
    seq(|s|, i requires 0 <= i < |s| => lower(s[i]))
  }

  /** The text of all parts after lowering each rune, every part followed by a separator. */
  function Text(parts: seq<string>, lower: char -> char): string {
    if parts == [] then "" else Text(parts[..|parts| - 1], lower) + Lowered(parts[|parts| - 1], lower) + "-"
  }

  function WordsOf(parts: seq<string>, lower: char -> char): (words: seq<string>)
    ensures AllWords(words)
  {
    ScanWords(Text(parts, lower)).words
  }

  /** The slug: the words of the parts joined by hyphens. */
  function SlugOf(parts: seq<string>, lower: char -> char): string {
    Join(WordsOf(parts, lower))
  }

  // ---------- The builder ----------

  /** What the builder holds after the scanned text. */
  function Rendered(r: Scan): string {
    Join(r.words) + if r.open || r.words == [] then "" else "-"
  }

  lemma {:induction false} JoinEndsInWord(words: seq<string>)
    requires AllWords(words)
    ensures words != [] ==> Join(words) != "" && Alnum(Join(words)[0]) && Alnum(Join(words)[|Join(words)| - 1])
  {
    if |words| > 1 {
      JoinEndsInWord(words[..|words| - 1]);
      var last := words[|words| - 1];
      assert last[|last| - 1] in last;
    } else if |words| == 1 {
      assert words[0][0] in words[0] && words[0][|words[0]| - 1] in words[0];
    }
  }

  lemma {:induction false} ScanNext(s: string, c: char)
    ensures ScanWords(s + [c]) == Read(ScanWords(s), c)
  {
    assert (s + [c])[..|s|] == s;
  }

  lemma {:induction false} FeedAlnum(s: string, c: char)
    requires Alnum(c)
    ensures Rendered(ScanWords(s + [c])) == Rendered(ScanWords(s)) + [c]
  {
    ScanNext(s, c);
    var r, t := ScanWords(s), ScanWords(s + [c]);
    var n := |r.words| - 1;
    if r.open {
      assert t.words[..n] == r.words[..n];
    } else {
      assert t.words[..|r.words|] == r.words;
    }
  }

  lemma {:induction false} FeedOther(s: string, c: char)
    requires !Alnum(c)
    ensures var b := Rendered(ScanWords(s));
      Rendered(ScanWords(s + [c])) == b + if b != "" && b[|b| - 1] != '-' then "-" else ""
  {
    ScanNext(s, c);
    JoinEndsInWord(ScanWords(s).words);
  }

  /** The builder loop over the runes of one part, and the separator after it. */
  method FeedPart(before: string, part: string, ghost text: string) returns (b: string)
    requires before == Rendered(ScanWords(text))
    ensures b == Rendered(ScanWords(text + part + "-"))
  {
    b := before;
    assert text + part[..0] == text;
    for i := 0 to |part|
      invariant b == Rendered(ScanWords(text + part[..i]))
    {
      assert text + part[..i + 1] == text + part[..i] + [part[i]];
      if Alnum(part[i]) {
        FeedAlnum(text + part[..i], part[i]);
        b := b + [part[i]];
      } else {
        FeedOther(text + part[..i], part[i]);
        if |b| > 0 && b[|b| - 1] != '-' {
          b := b + "-";
        }
      }
    }
    assert part[..|part|] == part;
    FeedOther(text + part, '-');
    if |b| > 0 && b[|b| - 1] != '-' {
      b := b + "-";
    }
  }

  /** Go's Trim(s, "-"). */
  function Trim(s: string): string {
    if s != "" && s[0] == '-' then Trim(s[1..])
    else if s != "" && s[|s| - 1] == '-' then Trim(s[..|s| - 1])
    else s
  }

  lemma {:induction false} TrimRendered(r: Scan)
    requires AllWords(r.words)
    ensures Trim(Rendered(r)) == Join(r.words)
  {
    JoinEndsInWord(r.words);
    var j := Join(r.words);
    assert (j + "-")[..|j|] == j;
  }

  /** Only a-z, 0-9 and single hyphens, none of them at either end. */
  predicate IsSlug(s: string) {
    && (forall i :: 0 <= i < |s| ==> Alnum(s[i]) || s[i] == '-')
    && (s != "" ==> s[0] != '-' && s[|s| - 1] != '-')
    && (forall i :: 0 <= i < |s| - 1 ==> s[i] != '-' || s[i + 1] != '-')
  }

  lemma {:induction false} JoinIsSlug(words: seq<string>)
    requires AllWords(words)
    ensures IsSlug(Join(words))
  {
    if |words| > 1 {
      var front, last := Join(words[..|words| - 1]), words[|words| - 1];
      JoinIsSlug(words[..|words| - 1]);
      JoinEndsInWord(words[..|words| - 1]);
      var s := front + "-" + last;
      forall i | 0 <= i < |s|
        ensures Alnum(s[i]) || s[i] == '-'
        ensures i < |s| - 1 ==> s[i] != '-' || s[i + 1] != '-'
      {
        if i > |front| { assert s[i] in last; }
        if |front| <= i < |s| - 1 { assert s[i + 1] in last; }
      }
      assert s[|s| - 1] in last;
    } else if |words| == 1 {
      forall i | 0 <= i < |words[0]| ensures Alnum(words[0][i]) {
        assert words[0][i] in words[0];
      }
    }
  }

  method SlugParts(parts: seq<string>, lower: char -> char) returns (slug: string)
    ensures slug == SlugOf(parts, lower)
    ensures IsSlug(slug)
  {
    var b := "";
    for p := 0 to |parts|
      invariant b == Rendered(ScanWords(Text(parts[..p], lower)))
    {
      b := FeedPart(b, Lowered(parts[p], lower), Text(parts[..p], lower));
      assert parts[..p + 1][..p] == parts[..p];
    }
    assert parts[..|parts|] == parts;
    ghost var r := ScanWords(Text(parts, lower));
    TrimRendered(r);
    JoinIsSlug(r.words);
    slug := Trim(b);
  }

  // ---------- Slugs ----------

  /** The scan of a hyphen-separated text renders the text itself. */
  lemma {:induction false} ScanOfSlugPrefix(s: string)
    requires forall i :: 0 <= i < |s| ==> Alnum(s[i]) || s[i] == '-'
    requires s != "" ==> s[0] != '-'
    requires forall i :: 0 <= i < |s| - 1 ==> s[i] != '-' || s[i + 1] != '-'
    ensures Rendered(ScanWords(s)) == s
  {
    if s == "" {
    } else {
      var t, c := s[..|s| - 1], s[|s| - 1];
      assert s == t + [c];
      ScanOfSlugPrefix(t);
      if Alnum(c) {
        FeedAlnum(t, c);
      } else {
        FeedOther(t, c);
      }
    }
  }

  lemma {:induction false} TextOfUnchanged(s: string, lower: char -> char)
    requires forall c :: c in s ==> lower(c) == c
    ensures Text([s], lower) == s + "-"
  {
    assert Lowered(s, lower) == s;
    assert [s][..0] == [];
  }

  /** A slug is left unchanged. */
  lemma {:induction false} SlugOfSlug(s: string, lower: char -> char)
    requires forall c :: Alnum(c) || c == '-' ==> lower(c) == c
    requires IsSlug(s)
    ensures SlugOf([s], lower) == s
  {
    TextOfUnchanged(s, lower);
    ScanOfSlugPrefix(s);
    JoinEndsInWord(ScanWords(s).words);
    ScanNext(s, '-');
  }

  /**
    Slugging a text again changes nothing exactly when the text is a slug already,
    for every lowering that leaves letters, digits and hyphens alone.
  */
  lemma {:induction false} SlugsAreTheFixedPoints(s: string, lower: char -> char)
    requires forall c :: Alnum(c) || c == '-' ==> lower(c) == c
    ensures SlugOf([s], lower) == s <==> IsSlug(s)
  {
    JoinIsSlug(WordsOf([s], lower));
    if IsSlug(s) {
      SlugOfSlug(s, lower);
    }
  }

  /** In particular the slug of anything is left unchanged. */
  lemma {:induction false} SlugIsIdempotent(parts: seq<string>, lower: char -> char)
    requires forall c :: Alnum(c) || c == '-' ==> lower(c) == c
    ensures SlugOf([SlugOf(parts, lower)], lower) == SlugOf(parts, lower)
  {
    JoinIsSlug(WordsOf(parts, lower));
    SlugsAreTheFixedPoints(SlugOf(parts, lower), lower);
  }

  // ---------- What the slug of a text is ----------

  lemma ReadBehind(v: seq<string>, r: Scan, c: char)
    requires r.open ==> r.words != []
    ensures Read(Scan(v + r.words, r.open), c) == Scan(v + Read(r, c).words, Read(r, c).open)
  {
    if Alnum(c) && r.open {
      assert (v + r.words)[..|v + r.words| - 1] == v + r.words[..|r.words| - 1];
    }
  }

  /** A rune other than a letter or digit separates: its sides contribute their words independently. */
  lemma {:induction false} ScanConcat(a: string, c: char, b: string)
    requires !Alnum(c)
    ensures ScanWords(a + [c] + b) == Scan(ScanWords(a).words + ScanWords(b).words, ScanWords(b).open)
    decreases b
  {
    if b == "" {
      ScanNext(a, c);
      assert a + [c] + b == a + [c];
    } else {
      var front, x := b[..|b| - 1], b[|b| - 1];
      assert b == front + [x] && a + [c] + b == (a + [c] + front) + [x];
      hide ScanWords, Read;
      ScanConcat(a, c, front);
      ScanNext(a + [c] + front, x);
      ScanNext(front, x);
      ReadBehind(ScanWords(a).words, ScanWords(front), x);
    }
  }

  /** A run of letters and digits is one word. */
  lemma {:induction false} ScanOfWord(w: string)
    requires w != "" && forall c :: c in w ==> Alnum(c)
    ensures ScanWords(w) == Scan([w], true)
  {
    var front, x := w[..|w| - 1], w[|w| - 1];
    assert w == front + [x];
    if front != "" {
      ScanOfWord(front);
    }
    ScanNext(front, x);
  }

  lemma {:induction false} TextEndsInSeparator(parts: seq<string>, lower: char -> char)
    requires parts != []
    ensures var t := Text(parts, lower); t != "" && t[|t| - 1] == '-'
  {
  }

  lemma {:induction false} WordsOfLast(front: seq<string>, p: string, lower: char -> char)
    ensures WordsOf(front + [p], lower) == WordsOf(front, lower) + ScanWords(Lowered(p, lower)).words
  {
    assert (front + [p])[..|front|] == front;
    var t, l := Text(front, lower), Lowered(p, lower);
    ScanNext(t + l, '-');
    if front == [] {
      assert t + l == l;
    } else {
      TextEndsInSeparator(front, lower);
      var u := t[..|t| - 1];
      assert t == u + ['-'];
      ScanNext(u, '-');
      ScanConcat(u, '-', l);
    }
  }

  lemma {:induction false} WordsOfParts(a: seq<string>, b: seq<string>, lower: char -> char)
    ensures WordsOf(a + b, lower) == WordsOf(a, lower) + WordsOf(b, lower)
    decreases b
  {
    if b == [] {
      assert WordsOf([], lower) == [] && a + b == a;
    } else {
      hide WordsOf, ScanWords, Lowered;
      var front, p := b[..|b| - 1], b[|b| - 1];
      assert b == front + [p] && a + b == (a + front) + [p];
      WordsOfParts(a, front, lower);
      WordsOfLast(a + front, p, lower);
      WordsOfLast(front, p, lower);
      var words := ScanWords(Lowered(p, lower)).words;
      assert WordsOf(a, lower) + WordsOf(front, lower) + words == WordsOf(a, lower) + (WordsOf(front, lower) + words);
    }
  }

  /** Two slugs with a hyphen between them, unless one is missing. */
  function Hyphenated(a: string, b: string): string {
    if a == "" then b else if b == "" then a else a + "-" + b
  }

  lemma {:induction false} JoinConcat(u: seq<string>, v: seq<string>)
    requires AllWords(u) && AllWords(v)
    ensures Join(u + v) == Hyphenated(Join(u), Join(v))
    decreases v
  {
    JoinEndsInWord(u);
    JoinEndsInWord(v);
    if v == [] {
      assert u + v == u;
    } else {
      var front, w := v[..|v| - 1], v[|v| - 1];
      assert (u + v)[..|u + v| - 1] == u + front;
      JoinConcat(u, front);
      JoinEndsInWord(front);
    }
  }

  /** The slug of a list of texts is made of the slugs of its parts, in order. */
  lemma {:induction false} SlugOfConcat(a: seq<string>, b: seq<string>, lower: char -> char)
    ensures SlugOf(a + b, lower) == Hyphenated(SlugOf(a, lower), SlugOf(b, lower))
  {
    hide Join, ScanWords, Text;
    WordsOfParts(a, b, lower);
    JoinConcat(WordsOf(a, lower), WordsOf(b, lower));
  }

  lemma {:induction false} WordsOfOne(p: string, lower: char -> char)
    ensures WordsOf([p], lower) == ScanWords(Lowered(p, lower)).words
  {
    assert WordsOf([], lower) == [];
    hide WordsOf, ScanWords, Lowered;
    WordsOfLast([], p, lower);
    assert [] + [p] == [p];
    var words := ScanWords(Lowered(p, lower)).words;
    assert [] + words == words;
  }

  lemma SlugOfOne(p: string, lower: char -> char)
    ensures SlugOf([p], lower) == Join(ScanWords(Lowered(p, lower)).words)
  {
    hide ScanWords, Text, Lowered, Join;
    WordsOfOne(p, lower);
  }

  /** A text is cut wherever the lowered rune is no letter or digit, as if its sides were two parts. */
  lemma SlugOfSeparated(p: string, c: char, q: string, lower: char -> char)
    requires !Alnum(lower(c))
    ensures SlugOf([p + [c] + q], lower) == SlugOf([p, q], lower)
  {
    assert Lowered(p + [c] + q, lower) == Lowered(p, lower) + [lower(c)] + Lowered(q, lower);
    hide ScanWords, Text, Lowered, Join;
    SlugOfOne(p + [c] + q, lower);
    ScanConcat(Lowered(p, lower), lower(c), Lowered(q, lower));
    WordsOfLast([p], q, lower);
    WordsOfOne(p, lower);
    assert [p] + [q] == [p, q];
  }

  /** A text that lowers to letters and digits alone is its own lower case. */
  lemma SlugOfWord(p: string, lower: char -> char)
    requires forall c :: c in p ==> Alnum(lower(c))
    ensures SlugOf([p], lower) == Lowered(p, lower)
  {
    SlugOfOne(p, lower);
    if p != "" {
      ScanOfWord(Lowered(p, lower));
    }
  }

  // ---------- Texts without words ----------

  /** No rune of the text is lowered to a letter or digit. */
  predicate Wordless(s: string) {
    forall i :: 0 <= i < |s| ==> !Alnum(ToLower(s[i]))
  }

  predicate NoAlnum(s: string) {
    forall i :: 0 <= i < |s| ==> !Alnum(s[i])
  }

  lemma {:induction false} NoWordsIff(s: string)
    ensures ScanWords(s).words == [] <==> NoAlnum(s)
  {
    if s == "" {
    } else {
      NoWordsIff(s[..|s| - 1]);
    }
  }

  lemma NoAlnumConcat(a: string, b: string)
    ensures NoAlnum(a + b) <==> NoAlnum(a) && NoAlnum(b)
  {
    forall i | 0 <= i < |a| ensures (a + b)[i] == a[i] {
    }
    forall i | 0 <= i < |b| ensures (a + b)[|a| + i] == b[i] {
    }
  }

  lemma LoweredNoAlnumIff(s: string)
    ensures NoAlnum(Lowered(s, ToLower)) <==> Wordless(s)
  {
    forall i | 0 <= i < |s| ensures Lowered(s, ToLower)[i] == ToLower(s[i]) {
    }
  }

  lemma {:induction false} TextNoAlnumIff(parts: seq<string>)
    ensures NoAlnum(Text(parts, ToLower)) <==> forall p :: p in parts ==> Wordless(p)
  {
    if parts == [] {
    } else {
      var front, last := parts[..|parts| - 1], parts[|parts| - 1];
      assert parts == front + [last];
      TextNoAlnumIff(front);
      NoAlnumConcat(Text(front, ToLower) + Lowered(last, ToLower), "-");
      NoAlnumConcat(Text(front, ToLower), Lowered(last, ToLower));
      LoweredNoAlnumIff(last);
      assert NoAlnum("-");
      assert Text(parts, ToLower) == Text(front, ToLower) + Lowered(last, ToLower) + "-";
    }
  }

  /** The slug of texts is empty exactly when none of them has a letter or digit. */
  lemma {:induction false} EmptySlugIff(parts: seq<string>)
    ensures SlugOf(parts, ToLower) == "" <==> forall p :: p in parts ==> Wordless(p)
  {
    TextNoAlnumIff(parts);
    NoWordsIff(Text(parts, ToLower));
    JoinEndsInWord(ScanWords(Text(parts, ToLower)).words);
  }
}
