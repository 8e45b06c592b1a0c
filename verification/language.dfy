/** `detectLanguage`: a coarse script-based language tag for a piece of text,
    chosen by counting the characters of four fixed code-point classes. */
module Language {

  /** The tags `detectLanguage` can return. `Cn`, `Jp`, `Kr` and `En` are also
      the order in which the counts are compared. */
  datatype Lang = Cn | Jp | Kr | En | Unknown {

    /** The tag string, as used in cache keys and compared with entry ids. */
    function Tag(): string {
      match this
      case Cn => "cn"
      case Jp => "jp"
      case Kr => "kr"
      case En => "en"
      case Unknown => "unknown"
    }

    /** Position in the comparison order cn, jp, kr, en. */
    function Rank(): nat {
      match this
      case Cn => 0
      case Jp => 1
      case Kr => 2
      case En => 3
      case Unknown => 4
    }
  }

  /** The character classes: CJK ideographs U+4E00-U+9FA5, Hiragana and
      Katakana U+3040-U+30FF, Hangul syllables U+AC00-U+D7AF, ASCII letters. */
  predicate InClass(c: char, lang: Lang) {
    match lang
    case Cn => '\U{4E00}' <= c <= '\U{9FA5}'
    case Jp => '\U{3040}' <= c <= '\U{30FF}'
    case Kr => '\U{AC00}' <= c <= '\U{D7AF}'
    case En => 'a' <= c <= 'z' || 'A' <= c <= 'Z'
    case Unknown => false
  }

  /** The four classes are disjoint, so no character counts for two tags. */
  lemma ClassesDisjoint(c: char, l1: Lang, l2: Lang)
    requires l1 != l2
    ensures !(InClass(c, l1) && InClass(c, l2))
  {
  }

  /** A character some class counts. */
  predicate IsScriptChar(c: char) {
    InClass(c, Cn) || InClass(c, Jp) || InClass(c, Kr) || InClass(c, En)
  }

  /** The number of characters of `text` in the class of `lang`: the length of
      `text.match(/[...]/g) || []`. It is zero exactly when no character of
      `text` is in that class. */
  function Count(text: string, lang: Lang): (n: nat)
    ensures n <= |text|
    ensures n == 0 <==> forall i :: 0 <= i < |text| ==> !InClass(text[i], lang)
  {
    if text == [] then 0
    else Count(text[..|text| - 1], lang) + (if InClass(text[|text| - 1], lang) then 1 else 0)
  }

  /** One step of the `reduce` over the entries cn, jp, kr, en: the
      accumulated tag is kept only when its count is strictly larger. The
      result is one of the two, its count is the larger one, and a tie goes
      to the later tag `b`. */
  function Keep(text: string, a: Lang, b: Lang): (r: Lang)
    ensures r == a || r == b
    ensures Count(text, r) >= Count(text, a) && Count(text, r) >= Count(text, b)
    ensures Count(text, a) == Count(text, b) ==> r == b
  {
    if Count(text, a) > Count(text, b) then a else b
  }

  /** `detectLanguage(text)`. `Unknown` exactly when no character of `text`
      falls in any class; otherwise a tag whose count is at least every other
      count, and (because the reduce keeps the later tag on a tie) every tag
      after it in the order cn, jp, kr, en has a strictly smaller count. */
  function DetectLanguage(text: string): (r: Lang)
    ensures r == Unknown <==> forall i :: 0 <= i < |text| ==> !IsScriptChar(text[i])
    ensures r != Unknown ==> forall g :: g != Unknown ==> Count(text, g) <= Count(text, r)
    ensures r != Unknown ==>
      forall g :: g != Unknown && r.Rank() < g.Rank() ==> Count(text, g) < Count(text, r)
  {
    var total := Count(text, Cn) + Count(text, Jp) + Count(text, Kr) + Count(text, En);
    if total == 0 then Unknown
    else Keep(text, Keep(text, Keep(text, Cn, Jp), Kr), En)
  }
}
