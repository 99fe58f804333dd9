/** The keystroke alphabet (Sources/Interface/Vim/VimKeystrokes.swift). The
    Swift enum lists its 187 cases one by one, each with the key notation
    Neovim's `nvim_input` understands as its raw value; here they are grouped
    into families, with `Raw` giving the notation, `Parse` reading it back, and
    `KeyAt`/`Ord` giving each case's position in declaration order. */
module VimKeystrokes {
  import opened Wrappers

  /** The keys written `<name>` that carry no parameter. */
  datatype Special = LessThan | Escape | Enter | Backspace | Delete | Tab | ShiftTab | SpaceKey | Insert
                   | Home | End | PageUp | PageDown

  datatype Direction = Up | Down | Left | Right

  datatype Modifier = CtrlMod | ShiftMod | MetaMod

  datatype Keystroke =
    | Char(c: char)                        // a key that is its own character
    | Named(s: Special)
    | Arrow(d: Direction)
    | Function(n: nat)                     // F1 .. F12
    | Ctrl(letter: char)                   // <C-a> .. <C-z>
    | Meta(letter: char)                   // <M-a> .. <M-z>
    | Modified(m: Modifier, d: Direction)  // <C-Left>, <S-Up>, <M-Down>, ...

  /** The characters that are keys of their own: printable ASCII, space
      included, except `<`, which is spelled `<lt>`. */
  predicate PlainChar(c: char) {
    ' ' <= c <= '~' && c != '<'
  }

  predicate Lowercase(c: char) {
    'a' <= c <= 'z'
  }

  /** The keystrokes the enum declares. */
  predicate Valid(k: Keystroke) {
    match k
    case Char(c) => PlainChar(c)
    case Function(n) => 1 <= n <= 12
    case Ctrl(c) => Lowercase(c)
    case Meta(c) => Lowercase(c)
    case _ => true
  }

  // ---------------------------------------------------------------- notation

  function SpecialName(s: Special): string {
    match s
    case LessThan => "lt"
    case Escape => "Esc"
    case Enter => "CR"
    case Backspace => "BS"
    case Delete => "Del"
    case Tab => "Tab"
    case ShiftTab => "S-Tab"
    case SpaceKey => "Space"
    case Insert => "Insert"
    case Home => "Home"
    case End => "End"
    case PageUp => "PageUp"
    case PageDown => "PageDown"
  }

  function DirectionName(d: Direction): string {
    match d
    case Up => "Up"
    case Down => "Down"
    case Left => "Left"
    case Right => "Right"
  }

  function ModifierLetter(m: Modifier): char {
    match m
    case CtrlMod => 'C'
    case ShiftMod => 'S'
    case MetaMod => 'M'
  }

  function Digit(n: nat): char
    requires n < 10
  {
    ('0' as int + n) as char
  }

  /** `F1` .. `F12`. */
  function FunctionName(n: nat): string
    requires 1 <= n <= 12
  {
    if n < 10 then ['F', Digit(n)] else ['F', '1', Digit(n - 10)]
  }

  /** `<name>`. */
  function Bracket(name: string): (r: string)
    ensures |r| == |name| + 2 && r[0] == '<' && r[|r| - 1] == '>' && r[1..|r| - 1] == name
  {
    "<" + name + ">"
  }

  /** The enum's raw value: the key notation sent to Neovim. */
  function Raw(k: Keystroke): string
    requires Valid(k)
  {
    match k
    case Char(c) => [c]
    case Named(s) => Bracket(SpecialName(s))
    case Arrow(d) => Bracket(DirectionName(d))
    case Function(n) => Bracket(FunctionName(n))
    case Ctrl(c) => Bracket(['C', '-', c])
    case Meta(c) => Bracket(['M', '-', c])
    case Modified(m, d) => Bracket([ModifierLetter(m), '-'] + DirectionName(d))
  }

  // ---------------------------------------------------------------- parsing

  function SpecialOf(w: string): Option<Special> {
    if w == "lt" then Some(LessThan)
    else if w == "Esc" then Some(Escape)
    else if w == "CR" then Some(Enter)
    else if w == "BS" then Some(Backspace)
    else if w == "Del" then Some(Delete)
    else if w == "Tab" then Some(Tab)
    else if w == "S-Tab" then Some(ShiftTab)
    else if w == "Space" then Some(SpaceKey)
    else if w == "Insert" then Some(Insert)
    else if w == "Home" then Some(Home)
    else if w == "End" then Some(End)
    else if w == "PageUp" then Some(PageUp)
    else if w == "PageDown" then Some(PageDown)
    else None
  }

  function DirectionOf(w: string): Option<Direction> {
    if w == "Up" then Some(Up)
    else if w == "Down" then Some(Down)
    else if w == "Left" then Some(Left)
    else if w == "Right" then Some(Right)
    else None
  }

  function ModifierOf(c: char): Option<Modifier> {
    if c == 'C' then Some(CtrlMod)
    else if c == 'S' then Some(ShiftMod)
    else if c == 'M' then Some(MetaMod)
    else None
  }

  /** The number after `F`: `1` .. `9`, `10`, `11` or `12`. */
  function FunctionNumber(w: string): Option<nat> {
    if |w| == 1 && '1' <= w[0] <= '9' then Some(w[0] as int - '0' as int)
    else if |w| == 2 && w[0] == '1' && '0' <= w[1] <= '2' then Some(10 + w[1] as int - '0' as int)
    else None
  }

  /** The key whose notation is `<w>`. */
  function ParseName(w: string): Option<Keystroke> {
    if SpecialOf(w).Some? then Some(Named(SpecialOf(w).value))
    else if DirectionOf(w).Some? then Some(Arrow(DirectionOf(w).value))
    else if |w| >= 2 && w[0] == 'F' && FunctionNumber(w[1..]).Some? then Some(Function(FunctionNumber(w[1..]).value))
    else if |w| == 3 && w[0] == 'C' && w[1] == '-' && Lowercase(w[2]) then Some(Ctrl(w[2]))
    else if |w| == 3 && w[0] == 'M' && w[1] == '-' && Lowercase(w[2]) then Some(Meta(w[2]))
    else if |w| >= 3 && w[1] == '-' && ModifierOf(w[0]).Some? && DirectionOf(w[2..]).Some? then
      Some(Modified(ModifierOf(w[0]).value, DirectionOf(w[2..]).value))
    else None
  }

  /** `VimKeystroke(rawValue:)`: the key a notation stands for, if any. */
  function Parse(s: string): (r: Option<Keystroke>)
    ensures r.Some? ==> Valid(r.value) && Raw(r.value) == s
  {
    if |s| == 1 then (if PlainChar(s[0]) then assert s == [s[0]]; Some(Char(s[0])) else None)
    else if |s| >= 2 && s[0] == '<' && s[|s| - 1] == '>' then
      var r := ParseName(s[1..|s| - 1]);
      if r.Some? && Valid(r.value) then
        BracketedRaw(s);
        r
      else None
    else None
  }

  /** A bracketed text that names a declared key is that key's raw value. */
  lemma BracketedRaw(s: string)
    requires |s| >= 2 && s[0] == '<' && s[|s| - 1] == '>'
    requires ParseName(s[1..|s| - 1]).Some? && Valid(ParseName(s[1..|s| - 1]).value)
    ensures Raw(ParseName(s[1..|s| - 1]).value) == s
  {
    ParseNameRaw(s[1..|s| - 1]);
    assert s == Bracket(s[1..|s| - 1]);
  }

  /** A name reads only as the key whose notation it is. */
  lemma ParseNameRaw(w: string)
    requires ParseName(w).Some? && Valid(ParseName(w).value)
    ensures Raw(ParseName(w).value) == Bracket(w)
  {
    if SpecialOf(w).Some? {
      SpecialOfName(w);
    } else if DirectionOf(w).Some? {
      DirectionOfName(w);
    } else if |w| >= 2 && w[0] == 'F' && FunctionNumber(w[1..]).Some? {
      FunctionNumberName(w[1..]);
      assert w == ['F'] + w[1..];
    } else if |w| == 3 && w[0] == 'C' && w[1] == '-' && Lowercase(w[2]) {
      assert w == ['C', '-', w[2]];
    } else if |w| == 3 && w[0] == 'M' && w[1] == '-' && Lowercase(w[2]) {
      assert w == ['M', '-', w[2]];
    } else {
      DirectionOfName(w[2..]);
      assert ModifierLetter(ModifierOf(w[0]).value) == w[0];
      assert w == [w[0], '-'] + w[2..];
    }
  }

  lemma SpecialOfName(w: string)
    requires SpecialOf(w).Some?
    ensures SpecialName(SpecialOf(w).value) == w
  {
  }

  lemma DirectionOfName(w: string)
    requires DirectionOf(w).Some?
    ensures DirectionName(DirectionOf(w).value) == w
  {
  }

  lemma FunctionNumberName(v: string)
    requires FunctionNumber(v).Some?
    ensures 1 <= FunctionNumber(v).value <= 12 && FunctionName(FunctionNumber(v).value) == ['F'] + v
  {
    if |v| == 1 {
      assert v == [v[0]];
    } else {
      assert v == ['1', v[1]];
    }
  }

  lemma SpecialRoundTrip(s: Special)
    ensures SpecialOf(SpecialName(s)) == Some(s)
  {
  }

  lemma DirectionRoundTrip(d: Direction)
    ensures SpecialOf(DirectionName(d)).None? && DirectionOf(DirectionName(d)) == Some(d)
  {
  }

  lemma FunctionRoundTrip(n: nat)
    requires 1 <= n <= 12
    ensures ParseName(FunctionName(n)) == Some(Function(n))
  {
    var w := FunctionName(n);
    assert w[1..] == if n < 10 then [Digit(n)] else ['1', Digit(n - 10)];
    assert SpecialOf(w).None? by {
      assert w[0] == 'F';
    }
    assert DirectionOf(w).None? by {
      assert w[0] == 'F';
    }
  }

  lemma LetterKeyRoundTrip(k: Keystroke)
    requires k.Ctrl? || k.Meta?
    requires Lowercase(k.letter)
    ensures ParseName([if k.Ctrl? then 'C' else 'M', '-', k.letter]) == Some(k)
  {
    var w := [if k.Ctrl? then 'C' else 'M', '-', k.letter];
    assert SpecialOf(w).None? by {
      assert w[1] == '-' && |w| == 3;
    }
    assert DirectionOf(w).None? by {
      assert w[1] == '-';
    }
  }

  lemma ModifiedRoundTrip(m: Modifier, d: Direction)
    ensures ParseName([ModifierLetter(m), '-'] + DirectionName(d)) == Some(Modified(m, d))
  {
    var w := [ModifierLetter(m), '-'] + DirectionName(d);
    assert w[0] == ModifierLetter(m) && w[1] == '-' && w[2..] == DirectionName(d);
    assert SpecialOf(w).None? by {
      assert |w| > 3 && w[1] == '-';
    }
    assert DirectionOf(w).None? by {
      assert w[1] == '-';
    }
    DirectionRoundTrip(d);
  }

  /** Reading a key's notation gives back the key: the raw values are pairwise
      distinct, as Swift demands of a `String`-backed enum. */
  lemma {:induction false} ParseRaw(k: Keystroke)
    requires Valid(k)
    ensures Parse(Raw(k)) == Some(k)
  {
    match k
    case Char(c) =>
      assert Raw(k) == [c];
    case Named(s) =>
      SpecialRoundTrip(s);
      ParseBracket(SpecialName(s), k);
    case Arrow(d) =>
      DirectionRoundTrip(d);
      ParseBracket(DirectionName(d), k);
    case Function(n) =>
      FunctionRoundTrip(n);
      ParseBracket(FunctionName(n), k);
    case Ctrl(c) =>
      LetterKeyRoundTrip(k);
      ParseBracket(['C', '-', c], k);
    case Meta(c) =>
      LetterKeyRoundTrip(k);
      ParseBracket(['M', '-', c], k);
    case Modified(m, d) =>
      ModifiedRoundTrip(m, d);
      ParseBracket([ModifierLetter(m), '-'] + DirectionName(d), k);
  }

  /** A declared key's bracketed name reads as that key. */
  lemma ParseBracket(w: string, k: Keystroke)
    requires ParseName(w) == Some(k) && Valid(k)
    ensures Parse(Bracket(w)) == Some(k)
  {
    var s := Bracket(w);
    assert |s| >= 2 && s[0] == '<' && s[|s| - 1] == '>' && s[1..|s| - 1] == w;
  }

  /** `VimKeystroke(rawValue:)` accepts exactly the declared raw values, each
      for its own key. */
  lemma ParseExactly(s: string, k: Keystroke)
    ensures Parse(s) == Some(k) <==> Valid(k) && Raw(k) == s
  {
    if Valid(k) && Raw(k) == s {
      ParseRaw(k);
    }
  }

  lemma RawInjective(a: Keystroke, b: Keystroke)
    requires Valid(a) && Valid(b) && Raw(a) == Raw(b)
    ensures a == b
  {
    ParseRaw(a);
    ParseRaw(b);
  }

  /** The name inside the brackets of a key that is not a single character. */
  function BracketedName(k: Keystroke): (w: string)
    requires Valid(k) && !k.Char?
    ensures |w| >= 2 && Raw(k) == Bracket(w)
  {
    match k
    case Named(s) => SpecialName(s)
    case Arrow(d) => DirectionName(d)
    case Function(n) => FunctionName(n)
    case Ctrl(c) => ['C', '-', c]
    case Meta(c) => ['M', '-', c]
    case Modified(m, d) => [ModifierLetter(m), '-'] + DirectionName(d)
  }

  /** Every raw value is one character or a bracketed name of at least two
      characters. */
  lemma RawShape(k: Keystroke)
    requires Valid(k)
    ensures |Raw(k)| == 1 <==> k.Char?
    ensures !k.Char? ==> |Raw(k)| >= 4 && Raw(k)[0] == '<' && Raw(k)[|Raw(k)| - 1] == '>'
  {
    if !k.Char? {
      var w := BracketedName(k);
    }
  }

  /** `<` itself is `<lt>`, and space has two spellings, `" "` and `<Space>`,
      which are two different keys. */
  lemma Spellings()
    ensures Raw(Named(LessThan)) == "<lt>" && Parse("<") == None
    ensures Raw(Char(' ')) == " " && Raw(Named(SpaceKey)) == "<Space>" && Char(' ') != Named(SpaceKey)
  {
    assert "<"[0] == '<' && !PlainChar('<');
    assert Raw(Named(LessThan)) == Bracket(SpecialName(LessThan));
    assert Raw(Named(SpaceKey)) == Bracket(SpecialName(SpaceKey));
  }

  // ------------------------------------------------------ declaration order

  const KEY_COUNT: nat := 187
  const ALLOWED_COUNT: nat := 103

  /** The 32 plain characters that are neither letters nor digits, in the
      order the enum declares them. */
  const SYMBOLS: string := " !@#$%^&*()-_=+[]{}\\|;:'\",./?`~>"

  function SymbolIndex(c: char): nat {
    match c
    case ' ' => 0 case '!' => 1 case '@' => 2 case '#' => 3 case '$' => 4 case '%' => 5
    case '^' => 6 case '&' => 7 case '*' => 8 case '(' => 9 case ')' => 10 case '-' => 11
    case '_' => 12 case '=' => 13 case '+' => 14 case '[' => 15 case ']' => 16 case '{' => 17
    case '}' => 18 case '\\' => 19 case '|' => 20 case ';' => 21 case ':' => 22 case '\'' => 23
    case '"' => 24 case ',' => 25 case '.' => 26 case '/' => 27 case '?' => 28 case '`' => 29
    case '~' => 30 case '>' => 31
    case _ => 32
  }

  predicate Digit09(c: char) {
    '0' <= c <= '9'
  }

  predicate Uppercase(c: char) {
    'A' <= c <= 'Z'
  }

  function SpecialIndex(s: Special): nat {
    match s
    case LessThan => 0 case Escape => 1 case Enter => 2 case Backspace => 3 case Delete => 4
    case Tab => 5 case ShiftTab => 6 case SpaceKey => 7 case Insert => 8
    case Home => 13 case End => 14 case PageUp => 15 case PageDown => 16
  }

  function ArrowIndex(d: Direction): nat {
    match d
    case Up => 0 case Down => 1 case Left => 2 case Right => 3
  }

  function ModifiedIndex(m: Modifier, d: Direction): nat {
    4 * (match m case CtrlMod => 0 case ShiftMod => 1 case MetaMod => 2)
    + (match d case Left => 0 case Right => 1 case Up => 2 case Down => 3)
  }

  /** A case's position in the enum's declaration (`allCases` order). */
  function Ord(k: Keystroke): nat {
    match k
    case Char(c) =>
      if Lowercase(c) then c as int - 'a' as int
      else if Uppercase(c) then 26 + c as int - 'A' as int
      else if Digit09(c) then 52 + c as int - '0' as int
      else 62 + SymbolIndex(c)
    case Named(s) => 94 + SpecialIndex(s)
    case Arrow(d) => 103 + ArrowIndex(d)
    case Function(n) => 110 + n
    case Ctrl(c) => 123 + c as int - 'a' as int
    case Meta(c) => 149 + c as int - 'a' as int
    case Modified(m, d) => 175 + ModifiedIndex(m, d)
  }

  function SpecialAt(i: nat): Special
    requires i < 9 || 13 <= i < 17
  {
    [LessThan, Escape, Enter, Backspace, Delete, Tab, ShiftTab, SpaceKey, Insert,
     LessThan, LessThan, LessThan, LessThan, Home, End, PageUp, PageDown][i]
  }

  /** The case declared at position `i`. */
  function KeyAt(i: nat): Keystroke
    requires i < KEY_COUNT
  {
    if i < 26 then Char(('a' as int + i) as char)
    else if i < 52 then Char(('A' as int + i - 26) as char)
    else if i < 62 then Char(('0' as int + i - 52) as char)
    else if i < 94 then Char(SYMBOLS[i - 62])
    else if i < 103 then Named(SpecialAt(i - 94))
    else if i < 107 then Arrow([Up, Down, Left, Right][i - 103])
    else if i < 111 then Named(SpecialAt(i - 94))
    else if i < 123 then Function(i - 110)
    else if i < 149 then Ctrl(('a' as int + i - 123) as char)
    else if i < 175 then Meta(('a' as int + i - 149) as char)
    else Modified([CtrlMod, ShiftMod, MetaMod][(i - 175) / 4], [Left, Right, Up, Down][(i - 175) % 4])
  }

  lemma SymbolAt(j: nat)
    requires j < 32
    ensures PlainChar(SYMBOLS[j]) && !Lowercase(SYMBOLS[j]) && !Uppercase(SYMBOLS[j]) && !Digit09(SYMBOLS[j])
    ensures SymbolIndex(SYMBOLS[j]) == j
  {
    if j < 16 {
      SymbolAtBelow(j);
    } else {
      SymbolAtFrom(j);
    }
  }

  lemma SymbolAtBelow(j: nat)
    requires j < 16
    ensures PlainChar(SYMBOLS[j]) && !Lowercase(SYMBOLS[j]) && !Uppercase(SYMBOLS[j]) && !Digit09(SYMBOLS[j])
    ensures SymbolIndex(SYMBOLS[j]) == j
  {
  }

  lemma SymbolAtFrom(j: nat)
    requires 16 <= j < 32
    ensures PlainChar(SYMBOLS[j]) && !Lowercase(SYMBOLS[j]) && !Uppercase(SYMBOLS[j]) && !Digit09(SYMBOLS[j])
    ensures SymbolIndex(SYMBOLS[j]) == j
  {
  }

  lemma SymbolOf(c: char)
    requires PlainChar(c) && !Lowercase(c) && !Uppercase(c) && !Digit09(c)
    ensures SymbolIndex(c) < 32 && SYMBOLS[SymbolIndex(c)] == c
  {
  }

  /** Position and case correspond one to one: every position names a valid
      case, and every valid case sits at its position. */
  lemma OrdKeyAt(i: nat)
    requires i < KEY_COUNT
    ensures Valid(KeyAt(i)) && Ord(KeyAt(i)) == i
  {
    if 62 <= i < 94 {
      SymbolAt(i - 62);
    }
  }

  lemma KeyAtOrd(k: Keystroke)
    requires Valid(k)
    ensures Ord(k) < KEY_COUNT && KeyAt(Ord(k)) == k
  {
    if k.Char? && !Lowercase(k.c) && !Uppercase(k.c) && !Digit09(k.c) {
      SymbolOf(k.c);
    }
  }

  /** `allCases`. */
  function AllCases(): (r: seq<Keystroke>)
    ensures |r| == KEY_COUNT
  {
    seq(KEY_COUNT, i requires 0 <= i < KEY_COUNT => KeyAt(i))
  }

  /** `allowedKeys`: the cases declared before the arrow keys. */
  function AllowedKeys(): (r: seq<Keystroke>)
    ensures |r| == ALLOWED_COUNT
  {
    AllCases()[..ALLOWED_COUNT]
  }

  /** The families `allowedKeys` is made of: the single characters, `<lt>`
      and the editing keys, but no arrow, navigation, function, Ctrl, Meta or
      modified key. */
  predicate Allowed(k: Keystroke) {
    k.Char? || (k.Named? && !(k.s.Home? || k.s.End? || k.s.PageUp? || k.s.PageDown?))
  }

  /** Every case is declared once. */
  lemma AllCasesDistinct()
    ensures forall i, j :: 0 <= i < j < KEY_COUNT ==> AllCases()[i] != AllCases()[j]
    ensures forall k :: Valid(k) <==> k in AllCases()
  {
    forall i, j | 0 <= i < j < KEY_COUNT
      ensures AllCases()[i] != AllCases()[j]
    {
      OrdKeyAt(i);
      OrdKeyAt(j);
    }
    forall k: Keystroke
      ensures Valid(k) <==> k in AllCases()
    {
      if Valid(k) {
        KeyAtOrd(k);
        assert AllCases()[Ord(k)] == k;
      }
      if k in AllCases() {
        var i :| 0 <= i < KEY_COUNT && AllCases()[i] == k;
        OrdKeyAt(i);
      }
    }
  }

  lemma OrdAllowed(k: Keystroke)
    requires Valid(k)
    ensures Ord(k) < ALLOWED_COUNT <==> Allowed(k)
  {
    if k.Char? && !Lowercase(k.c) && !Uppercase(k.c) && !Digit09(k.c) {
      SymbolOf(k.c);
    }
  }

  /** `allowedKeys` holds exactly the allowed families, each key once. */
  lemma AllowedKeysExactly()
    ensures forall i, j :: 0 <= i < j < ALLOWED_COUNT ==> AllowedKeys()[i] != AllowedKeys()[j]
    ensures forall k :: k in AllowedKeys() <==> Valid(k) && Allowed(k)
  {
    AllCasesDistinct();
    forall k: Keystroke
      ensures k in AllowedKeys() <==> Valid(k) && Allowed(k)
    {
      if k in AllowedKeys() {
        var i :| 0 <= i < ALLOWED_COUNT && AllowedKeys()[i] == k;
        OrdKeyAt(i);
        OrdAllowed(k);
      }
      if Valid(k) && Allowed(k) {
        KeyAtOrd(k);
        OrdAllowed(k);
        assert AllowedKeys()[Ord(k)] == k;
      }
    }
  }

  /** `AStarNeighbors.getNextKeystrokes`: every state has the same successors. */
  function Neighbors<S>(state: S, target: S): (r: seq<Keystroke>)
    ensures |r| == ALLOWED_COUNT && forall k :: k in r <==> Valid(k) && Allowed(k)
  {
    AllowedKeysExactly();
    AllowedKeys()
  }
}
