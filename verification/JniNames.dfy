/**
 Java names as C names: letters and digits stay, everything else becomes an escape that starts with an
 underscore. Readable names can be read back, so different methods with readable names get different C names.
 */
module JniNames {
  import opened Utf16
  import opened Wrappers

  const SLASH: u16 := 0x2f
  const UNDERSCORE: u16 := 0x5f
  const SEMICOLON: u16 := 0x3b
  const BRACKET: u16 := 0x5b
  const OPEN: u16 := 0x28
  const CLOSE: u16 := 0x29
  const ZERO: u16 := 0x30
  const ONE: u16 := 0x31
  const TWO: u16 := 0x32
  const THREE: u16 := 0x33
  const JAVA: Text := [0x4a, 0x61, 0x76, 0x61, 0x5f]

  predicate IsPlain(c: u16) {
    0x30 <= c <= 0x39 || 0x41 <= c <= 0x5a || 0x61 <= c <= 0x7a
  }

  /** A lower-case hexadecimal digit. */
  function HexDigit(n: int): (c: u16)
    requires 0 <= n < 16
  {
    if n < 10 then (0x30 + n) as u16 else (0x57 + n) as u16
  }

  function FromHex(c: u16): Option<int> {
    if 0x30 <= c <= 0x39 then Some(c as int - 0x30)
    else if 0x61 <= c <= 0x66 then Some(c as int - 0x57)
    else None
  }

  function Hex4(c: u16): (t: Text)
    ensures |t| == 4
  {
    var n := c as int;
    [HexDigit(n / 0x1000), HexDigit(n / 0x100 % 16), HexDigit(n / 16 % 16), HexDigit(n % 16)]
  }

  /** What one character is written as. */
  function Escape(c: u16): (t: Text)
    ensures |t| >= 1
  {
    if IsPlain(c) then [c]
    else if c == SLASH then [UNDERSCORE]
    else if c == UNDERSCORE then [UNDERSCORE, ONE]
    else if c == SEMICOLON then [UNDERSCORE, TWO]
    else if c == BRACKET then [UNDERSCORE, THREE]
    else [UNDERSCORE, ZERO] + Hex4(c)
  }

  function Mangle(name: Text): Text {
    if name == [] then [] else Escape(name[0]) + Mangle(name[1..])
  }

  lemma MangleShort()
    ensures Mangle([]) == []
  {
  }

  lemma MangleOne(c: u16)
    ensures Mangle([c]) == Escape(c)
  {
  }

  /** A string of ASCII characters as a text. */
  function Ascii(s: string): (t: Text)
    requires forall c <- s :: c < 128 as char
    ensures |t| == |s| && forall i :: 0 <= i < |s| ==> t[i] as int == s[i] as int
  {
    seq(|s|, i requires 0 <= i < |s| => assert s[i] in s; (s[i] as int) as u16)
  }

  /** Which escape stands for which character, and that the digits are lower-case hexadecimal, the highest first. */
  lemma EscapesSpelled()
    ensures Escape('/' as int as u16) == Ascii("_") && Escape('_' as int as u16) == Ascii("_1")
    ensures Escape(';' as int as u16) == Ascii("_2") && Escape('[' as int as u16) == Ascii("_3")
    ensures Escape('$' as int as u16) == Ascii("_00024") && Escape(0xabcd) == Ascii("_0abcd")
    ensures JAVA == Ascii("Java_")
  {
  }

  // ---------------------------------------------------------------- reading back

  /** The character that an escape with these four digits stands for, if it is one that is written so. */
  function FromHex4(t: Text): (r: Option<u16>)
    requires |t| == 4
    ensures r.Some? ==> !IsPlain(r.value) && r.value !in {SLASH, UNDERSCORE, SEMICOLON, BRACKET}
  {
    match (FromHex(t[0]), FromHex(t[1]), FromHex(t[2]), FromHex(t[3]))
    case (Some(a), Some(b), Some(c), Some(d)) =>
      var x := (((a * 16 + b) * 16 + c) * 16 + d) as u16;
      if IsPlain(x) || x in {SLASH, UNDERSCORE, SEMICOLON, BRACKET} then None else Some(x)
    case _ => None
  }

  /** The character whose four digits stand at the start of the text. */
  function Coded(t: Text): (r: Option<u16>)
    ensures r.Some? ==> |t| >= 4
  {
    if |t| < 4 then None else FromHex4(t[..4])
  }

  /**
   Reads one character and says how much of the text it took. An underscore that does not start one of the
   longer escapes stands for a slash.
   */
  function ReadOne(t: Text): (r: Option<(u16, nat)>)
    requires t != []
    ensures r.Some? ==> 1 <= r.value.1 <= |t|
    ensures r.Some? <==> IsPlain(t[0]) || t[0] == UNDERSCORE
  {
    if IsPlain(t[0]) then Some((t[0], 1))
    else if t[0] != UNDERSCORE then None
    else if |t| == 1 then Some((SLASH, 1))
    else if t[1] == ONE then Some((UNDERSCORE, 2))
    else if t[1] == TWO then Some((SEMICOLON, 2))
    else if t[1] == THREE then Some((BRACKET, 2))
    else if t[1] == ZERO && Coded(t[2..]).Some? then Some((Coded(t[2..]).value, 6))
    else Some((SLASH, 1))
  }

  function Unmangle(t: Text): Option<Text>
    decreases |t|
  {
    if t == [] then Some([])
    else match ReadOne(t)
      case None => None
      case Some((c, n)) =>
        match Unmangle(t[n..])
        case None => None
        case Some(rest) => Some([c] + rest)
  }

  lemma UnmangleStep(t: Text)
    requires t != [] && ReadOne(t).Some?
    ensures var rest := Unmangle(t[ReadOne(t).value.1..]);
            Unmangle(t) == if rest.Some? then Some([ReadOne(t).value.0] + rest.value) else None
  {
  }

  /** What follows an underscore makes it the start of one of the longer escapes. */
  predicate Continues(t: Text) {
    t != [] && (ONE <= t[0] <= THREE || (t[0] == ZERO && Coded(t[1..]).Some?))
  }

  /** A slash at place `i` whose underscore would be taken for the start of another escape. */
  predicate Misread(name: Text, i: nat)
    requires i < |name|
  {
    name[i] == SLASH && Continues(name[i + 1..])
  }

  ghost predicate Readable(name: Text) {
    forall i :: 0 <= i < |name| ==> !Misread(name, i)
  }

  lemma FourDigits(n: nat) returns (a: nat, b: nat, d: nat, e: nat)
    requires n < 0x1_0000
    ensures a < 16 && b < 16 && d < 16 && e < 16 && n == ((a * 16 + b) * 16 + d) * 16 + e
    ensures n / 0x1000 == a && n / 0x100 % 16 == b && n / 16 % 16 == d && n % 16 == e
  {
    a, b, d, e := n / 0x1000, n / 0x100 % 16, n / 16 % 16, n % 16;
  }

  lemma DigitsOf(a: nat, b: nat, d: nat, e: nat)
    requires a < 16 && b < 16 && d < 16 && e < 16
    ensures var n := ((a * 16 + b) * 16 + d) * 16 + e;
            n < 0x1_0000 && n / 0x1000 == a && n / 0x100 % 16 == b && n / 16 % 16 == d && n % 16 == e
  {
  }

  lemma HexDigitBack(d: nat)
    requires d < 16
    ensures FromHex(HexDigit(d)) == Some(d)
  {
  }

  lemma HexBack(c: u16)
    requires !IsPlain(c) && c !in {SLASH, UNDERSCORE, SEMICOLON, BRACKET}
    ensures FromHex4(Hex4(c)) == Some(c)
  {
    var a, b, d, e := FourDigits(c as int);
    assert Hex4(c) == [HexDigit(a), HexDigit(b), HexDigit(d), HexDigit(e)];
    HexDigitBack(a);
    HexDigitBack(b);
    HexDigitBack(d);
    HexDigitBack(e);
    hide HexDigit, FromHex, Hex4;
  }

  lemma FromHexBack(c: u16)
    requires FromHex(c).Some?
    ensures 0 <= FromHex(c).value < 16 && HexDigit(FromHex(c).value) == c
  {
  }

  /** And the other way round: the digits that are read are those that would be written. */
  lemma HexForth(t: Text)
    requires |t| == 4 && FromHex4(t).Some?
    ensures Hex4(FromHex4(t).value) == t
    ensures forall i :: 0 <= i < 4 ==> FromHex(t[i]).Some?
  {
    FromHexBack(t[0]);
    FromHexBack(t[1]);
    FromHexBack(t[2]);
    FromHexBack(t[3]);
    DigitsOf(FromHex(t[0]).value, FromHex(t[1]).value, FromHex(t[2]).value, FromHex(t[3]).value);
    hide HexDigit, FromHex;
  }

  predicate IsHex(c: u16) {
    FromHex(c).Some?
  }

  /** As long as a name starts with hexadecimal digits, so does its C form, and only then. */
  lemma {:induction false} HexStart(name: Text, k: nat)
    ensures (k <= |name| && forall i :: 0 <= i < k ==> IsHex(name[i])) <==>
            (k <= |Mangle(name)| && forall i :: 0 <= i < k ==> IsHex(Mangle(name)[i]))
    ensures (k <= |name| && forall i :: 0 <= i < k ==> IsHex(name[i])) ==> k <= |Mangle(name)| && name[..k] == Mangle(name)[..k]
    decreases k
  {
    if k > 0 && name != [] {
      HexStart(name[1..], k - 1);
      var t := Mangle(name);
      assert t[0] == Escape(name[0])[0];
      if IsPlain(name[0]) {
        assert t == [name[0]] + Mangle(name[1..]);
        assert t[1..] == Mangle(name[1..]);
        assert forall i :: 0 <= i < |t| - 1 ==> t[1..][i] == t[i + 1];
        assert forall i :: 0 < i < |t| ==> t[i] == t[1..][i - 1];
        assert forall i :: 0 < i < |name| ==> name[i] == name[1..][i - 1];
      }
    }
  }

  lemma CodedIsHex(t: Text)
    ensures Coded(t).Some? ==> forall i :: 0 <= i < 4 ==> IsHex(t[i])
  {
    if Coded(t).Some? {
      HexForth(t[..4]);
      assert forall i :: 0 <= i < 4 ==> t[..4][i] == t[i];
    }
  }

  /** A name starts like the rest of an escape exactly if its C form does. */
  lemma ContinuesAlike(rest: Text)
    ensures Continues(Mangle(rest)) <==> Continues(rest)
  {
    if rest != [] && rest[0] == ZERO {
      var r, t := rest[1..], Mangle(rest)[1..];
      assert Mangle(rest) == [ZERO] + Mangle(r);
      HexStart(r, 4);
      CodedIsHex(r);
      CodedIsHex(t);
    }
  }

  /** A character other than a slash is read back, whatever follows. */
  lemma ReadEscape(c: u16, rest: Text)
    requires c != SLASH
    ensures ReadOne(Escape(c) + rest) == Some((c, |Escape(c)|))
  {
    var t := Escape(c) + rest;
    if IsPlain(c) || c in {UNDERSCORE, SEMICOLON, BRACKET} {
      assert t[0] == Escape(c)[0] && (|Escape(c)| == 2 ==> t[1] == Escape(c)[1]);
    } else {
      HexBack(c);
      hide Hex4, FromHex4;
      assert t[0] == UNDERSCORE && t[1] == ZERO && t[2..][..4] == Hex4(c);
    }
  }

  /** An underscore is read as a slash exactly if what follows does not make it another escape. */
  lemma ReadSlash(rest: Text)
    ensures var r := ReadOne([UNDERSCORE] + rest);
            if Continues(rest) then r.Some? && r.value.0 != SLASH else r == Some((SLASH, 1))
  {
    hide FromHex4;
    var t := [UNDERSCORE] + rest;
    assert rest != [] ==> t[1] == rest[0] && t[2..] == rest[1..];
  }

  /** The first character of a name is read back from its C form unless it is a misread slash. */
  lemma ReadBack(name: Text)
    requires name != []
    ensures var t := Mangle(name);
            && |Escape(name[0])| <= |t| && t != [] && t[|Escape(name[0])|..] == Mangle(name[1..])
            && if Misread(name, 0) then ReadOne(t).Some? && ReadOne(t).value.0 != SLASH
               else ReadOne(t) == Some((name[0], |Escape(name[0])|))
  {
    var c, rest := name[0], Mangle(name[1..]);
    assert (Escape(c) + rest)[|Escape(c)|..] == rest;
    if c != SLASH {
      ReadEscape(c, rest);
    } else {
      ContinuesAlike(name[1..]);
      ReadSlash(rest);
      assert Escape(c) == [UNDERSCORE];
    }
    hide Escape, ReadOne, Continues;
  }

  lemma ReadableTail(name: Text)
    requires name != []
    ensures Readable(name) <==> !Misread(name, 0) && Readable(name[1..])
  {
    forall i | 0 <= i < |name| - 1 ensures Misread(name[1..], i) == Misread(name, i + 1) {
      assert name[1..][i + 1..] == name[i + 2..];
    }
    assert forall i :: 0 < i < |name| ==> Misread(name, i) == Misread(name[1..], i - 1);
  }

  /** A name is read back exactly if none of its slashes looks like the start of another escape. */
  lemma {:induction false} ReadBackExactly(name: Text)
    ensures Unmangle(Mangle(name)) == Some(name) <==> Readable(name)
  {
    if name != [] {
      hide *;
      ReadBack(name);
      UnmangleStep(Mangle(name));
      ReadBackExactly(name[1..]);
      assert name == [name[0]] + name[1..];
      ReadableTail(name);
    }
  }

  /** What is read is written with the text that was read. */
  lemma ReadIsWritten(t: Text)
    requires t != [] && ReadOne(t).Some?
    ensures var (c, n) := ReadOne(t).value; Escape(c) == t[..n]
  {
    if t[0] == UNDERSCORE && |t| > 1 && t[1] == ZERO && Coded(t[2..]).Some? {
      HexForth(t[2..][..4]);
      hide Hex4, FromHex4;
      assert t[..6] == [UNDERSCORE, ZERO] + t[2..][..4];
    }
  }

  lemma {:induction false} MangleAppend(a: Text, b: Text)
    ensures Mangle(a + b) == Mangle(a) + Mangle(b)
  {
    hide Escape;
    if a == [] {
      assert a + b == b;
    } else {
      MangleAppend(a[1..], b);
      assert (a + b)[1..] == a[1..] + b;
    }
  }

  /** Whatever consists of letters, digits and underscores is read as a name that has it as its C form. */
  lemma {:induction false} ReadsAsName(t: Text)
    requires forall c :: c in t ==> IsPlain(c) || c == UNDERSCORE
    ensures Unmangle(t).Some? && Mangle(Unmangle(t).value) == t
    decreases |t|
  {
    if t != [] {
      assert IsPlain(t[0]) || t[0] == UNDERSCORE;
      hide *;
      var (c, n) := ReadOne(t).value;
      ReadIsWritten(t);
      UnmangleStep(t);
      ReadsAsName(t[n..]);
      var rest := Unmangle(t[n..]).value;
      MangleAppend([c], rest);
      MangleOne(c);
      assert t == t[..n] + t[n..];
    }
  }

  lemma EscapeCharacters(c: u16)
    ensures forall d :: d in Escape(c) ==> IsPlain(d) || d == UNDERSCORE
  {
  }

  lemma {:induction false} CFormCharacters(name: Text)
    ensures forall c :: c in Mangle(name) ==> IsPlain(c) || c == UNDERSCORE
  {
    if name != [] {
      EscapeCharacters(name[0]);
      CFormCharacters(name[1..]);
      hide Escape;
    }
  }

  /** Every C form is that of exactly one readable name: a name that is not readable collides with that one. */
  lemma OneReadable(name: Text) returns (read: Text)
    ensures Readable(read) && Mangle(read) == Mangle(name)
    ensures forall other :: Readable(other) && Mangle(other) == Mangle(name) ==> other == read
  {
    CFormCharacters(name);
    ReadsAsName(Mangle(name));
    read := Unmangle(Mangle(name)).value;
    ReadBackExactly(read);
    forall other | Readable(other) && Mangle(other) == Mangle(name) ensures other == read {
      ReadBackExactly(other);
    }
  }

  predicate PlainOrSlash(name: Text) {
    forall c :: c in name ==> IsPlain(c) || c == SLASH
  }

  /** Two names with the same C form start alike if the first is readable and starts with a plain character or a slash. */
  lemma SameStart(name: Text, other: Text)
    requires name != [] && Mangle(name) == Mangle(other)
    requires (IsPlain(name[0]) || name[0] == SLASH) && !Misread(name, 0)
    ensures other != [] && other[0] == name[0] && Mangle(name[1..]) == Mangle(other[1..])
  {
    ReadBack(name);
    ReadBack(other);
  }

  /** Every name with the C form of a readable name of plain characters and slashes is that name. */
  lemma {:induction false} SameName(name: Text, other: Text)
    requires Readable(name) && PlainOrSlash(name) && Mangle(name) == Mangle(other)
    ensures other == name
  {
    if name == [] {
      assert other == [];
    } else {
      ReadableTail(name);
      SameStart(name, other);
      SameName(name[1..], other[1..]);
    }
  }

  lemma {:induction false} ManglePlain(name: Text)
    requires forall c :: c in name ==> IsPlain(c)
    ensures Mangle(name) == name
  {
    if name != [] {
      MangleOne(name[0]);
      ManglePlain(name[1..]);
    }
  }

  /** A character with a longer escape collides with the slash and the rest of that escape. */
  lemma EscapeCollides(c: u16) returns (other: Text)
    requires !IsPlain(c) && c != SLASH
    ensures Mangle([c]) == Mangle(other) && other != [c] && |other| > 1 && other[0] == SLASH
  {
    other := [SLASH] + Escape(c)[1..];
    EscapeCharacters(c);
    MangleOne(c);
    assert forall d :: d in Escape(c)[1..] ==> IsPlain(d);
    ManglePlain(Escape(c)[1..]);
    assert other[1..] == Escape(c)[1..];
    assert Escape(c) == [UNDERSCORE] + Escape(c)[1..];
  }

  /** And so does a name with such a character in it. */
  lemma NameCollides(name: Text, i: nat) returns (other: Text)
    requires i < |name| && !IsPlain(name[i]) && name[i] != SLASH
    ensures Mangle(other) == Mangle(name) && other != name
  {
    hide Mangle, Escape;
    var short := EscapeCollides(name[i]);
    other := name[..i] + short + name[i + 1..];
    MangleAppend(name[..i], short);
    MangleAppend(name[..i] + short, name[i + 1..]);
    MangleAppend(name[..i], [name[i]]);
    MangleAppend(name[..i + 1], name[i + 1..]);
    assert name[..i + 1] == name[..i] + [name[i]] && name == name[..i + 1] + name[i + 1..];
    assert other[i] == SLASH;
  }

  /** A name is the only one with its C form exactly if it is readable and has only plain characters and slashes. */
  lemma OnlyName(name: Text)
    ensures (forall other :: Mangle(other) == Mangle(name) ==> other == name) <==> Readable(name) && PlainOrSlash(name)
  {
    if Readable(name) && PlainOrSlash(name) {
      forall other | Mangle(other) == Mangle(name) ensures other == name {
        SameName(name, other);
      }
    } else if !Readable(name) {
      var read := OneReadable(name);
      assert read != name && Mangle(read) == Mangle(name);
    } else {
      var i :| 0 <= i < |name| && !IsPlain(name[i]) && name[i] != SLASH;
      var other := NameCollides(name, i);
    }
  }

  /** A slash before a 1 and an underscore have the same C form; a slash before a lone 0 is nevertheless readable. */
  lemma Collision()
    ensures Mangle([SLASH, ONE]) == Mangle([UNDERSCORE]) && !Readable([SLASH, ONE]) && Readable([SLASH, ZERO])
  {
    MangleAppend([SLASH], [ONE]);
    assert [SLASH] + [ONE] == [SLASH, ONE];
    MangleOne(SLASH);
    MangleOne(ONE);
    MangleOne(UNDERSCORE);
    assert Misread([SLASH, ONE], 0);
  }

  // ---------------------------------------------------------------- the methods

  /** The hexadecimal digits of a number, without leading zeros. */
  function HexString(n: nat): (t: Text)
    ensures t != []
  {
    if n < 16 then [HexDigit(n)] else HexString(n / 16) + [HexDigit(n % 16)]
  }

  lemma LastHexDigit(q: nat, r: nat)
    requires q >= 1 && r < 16
    ensures HexString(q * 16 + r) == HexString(q) + [HexDigit(r)]
  {
  }

  /** With 0x100000 added, the digits after the first are a zero and the four of the character. */
  lemma HexStringOfEscape(c: u16)
    ensures HexString(c as int + 0x10_0000) == [ONE, ZERO] + Hex4(c)
  {
    var a, b, d, e := FourDigits(c as int);
    LastHexDigit(1, 0);
    LastHexDigit(16, a);
    LastHexDigit(0x100 + a, b);
    LastHexDigit((0x100 + a) * 16 + b, d);
    LastHexDigit(((0x100 + a) * 16 + b) * 16 + d, e);
    assert HexString(1) == [ONE] && HexDigit(0) == ZERO;
    hide HexString, HexDigit;
    assert Hex4(c) == [HexDigit(a), HexDigit(b), HexDigit(d), HexDigit(e)];
  }

  method AppendEscape(before: Text, ch: u16) returns (result: Text)
    ensures result == before + Escape(ch)
  {
    hide Hex4, HexString;
    if ch <= 0x7f && IsPlain(ch) {
      result := before + [ch];
    } else {
      result := before + [UNDERSCORE];
      if ch == SLASH {
      } else if ch == UNDERSCORE {
        result := result + [ONE];
      } else if ch == SEMICOLON {
        result := result + [TWO];
      } else if ch == BRACKET {
        result := result + [THREE];
      } else {
        HexStringOfEscape(ch);
        var t := HexString(ch as int + 0x10_0000);
        assert t[1..] == [ZERO] + Hex4(ch);
        result := result + t[1..];
      }
    }
  }

  /** Appends the C form of a name. */
  method StringToJNI(before: Text, name: Text) returns (result: Text)
    ensures result == before + Mangle(name)
  {
    hide Escape, Mangle;
    result := before;
    MangleShort();
    for i := 0 to |name|
      invariant result == before + Mangle(name[..i])
    {
      MangleAppend(name[..i], [name[i]]);
      MangleOne(name[i]);
      assert name[..i + 1] == name[..i] + [name[i]];
      result := AppendEscape(result, name[i]);
    }
    assert name[..|name|] == name;
  }

  // ---------------------------------------------------------------- names of native methods

  function IndexOf(t: Text, c: u16, i: nat): (k: nat)
    requires i <= |t| && c in t[i..]
    ensures i <= k < |t| && t[k] == c && c !in t[i..k]
    decreases |t| - i
  {
    if t[i] == c then i else IndexOf(t, c, i + 1)
  }

  /** A method type: the types of the parameters between parentheses, then the type of the result. */
  predicate IsMethodType(typ: Text) {
    |typ| > 0 && typ[0] == OPEN && CLOSE in typ[1..]
  }

  function Parameters(typ: Text): Text
    requires IsMethodType(typ)
  {
    typ[1..IndexOf(typ, CLOSE, 1)]
  }

  /** The parts of a native method's name as one text: separators become slashes. */
  function Joined(classname: Text, methodname: Text, parameters: Option<Text>): Text {
    classname + [SLASH] + methodname + match parameters case Some(p) => [SLASH, SLASH] + p case None => []
  }

  method FindClose(typ: Text) returns (k: nat)
    requires IsMethodType(typ)
    ensures 1 <= k < |typ| && typ[1..k] == Parameters(typ)
  {
    k := 1;
    while typ[k] != CLOSE
      invariant 1 <= k < |typ| && CLOSE in typ[k..] && IndexOf(typ, CLOSE, k) == IndexOf(typ, CLOSE, 1)
      decreases |typ| - k
    {
      k := k + 1;
    }
  }

  lemma MangleSlash()
    ensures Mangle([SLASH]) == [UNDERSCORE] && Mangle([SLASH, SLASH]) == [UNDERSCORE, UNDERSCORE]
  {
    MangleAppend([SLASH], [SLASH]);
    assert [SLASH] + [SLASH] == [SLASH, SLASH];
    MangleOne(SLASH);
  }

  lemma MangleJoined(classname: Text, methodname: Text, parameters: Option<Text>)
    ensures JAVA + Mangle(Joined(classname, methodname, parameters)) ==
            JAVA + Mangle(classname) + [UNDERSCORE] + Mangle(methodname) +
            match parameters case Some(p) => [UNDERSCORE, UNDERSCORE] + Mangle(p) case None => []
  {
    hide Mangle, Escape;
    var head := classname + [SLASH] + methodname;
    MangleSlash();
    MangleAppend(classname + [SLASH], methodname);
    MangleAppend(classname, [SLASH]);
    if parameters.Some? {
      MangleAppend(head, [SLASH, SLASH] + parameters.value);
      MangleAppend([SLASH, SLASH], parameters.value);
    } else {
      assert Joined(classname, methodname, parameters) == head;
    }
  }

  /** The C name of a native method; with the parameter types if it is overloaded. */
  method ConvertToJNIName(classname: Text, methodname: Text, typename: Option<Text>) returns (result: Text)
    requires typename.Some? ==> IsMethodType(typename.value)
    ensures result == JAVA + Mangle(Joined(classname, methodname, if typename.Some? then Some(Parameters(typename.value)) else None))
  {
    MangleJoined(classname, methodname, if typename.Some? then Some(Parameters(typename.value)) else None);
    hide Mangle, Parameters, Joined;
    result := StringToJNI(JAVA, classname);
    result := result + [UNDERSCORE];
    result := StringToJNI(result, methodname);
    if typename.Some? {
      result := result + [UNDERSCORE, UNDERSCORE];
      var close := FindClose(typename.value);
      result := StringToJNI(result, typename.value[1..close]);
    }
  }

  lemma PartsSpelled()
    ensures Mangle(Ascii("a/B")) == Ascii("a_B") && Mangle(Ascii("f")) == Ascii("f") && Mangle(Ascii("I")) == Ascii("I")
  {
    MangleOne(0x66);
    MangleOne(0x49);
    assert Ascii("f") == [0x66] && Ascii("I") == [0x49];
    assert Ascii("a/B") == [0x61, SLASH, 0x42] && Ascii("a_B") == [0x61, UNDERSCORE, 0x42];
    assert Mangle([0x42]) == [0x42];
    assert [SLASH, 0x42][1..] == [0x42] && Mangle([SLASH, 0x42]) == [UNDERSCORE, 0x42];
    assert [0x61, SLASH, 0x42][1..] == [SLASH, 0x42];
  }

  /** A name in full: one underscore stands before the method, two before the parameter types. */
  lemma NameSpelled()
    ensures JAVA + Mangle(Joined(Ascii("a/B"), Ascii("f"), None)) == Ascii("Java_a_B_f")
    ensures JAVA + Mangle(Joined(Ascii("a/B"), Ascii("f"), Some(Ascii("I")))) == Ascii("Java_a_B_f__I")
  {
    hide Mangle, Escape, Joined;
    PartsSpelled();
    MangleJoined(Ascii("a/B"), Ascii("f"), None);
    MangleJoined(Ascii("a/B"), Ascii("f"), Some(Ascii("I")));
  }

  /** Readable segments that are not empty, separated by slashes. */
  ghost predicate ValidClass(name: Text) {
    && name != [] && name[|name| - 1] != SLASH && Readable(name)
    && forall i :: 0 <= i < |name| - 1 ==> !(name[i] == SLASH && name[i + 1] == SLASH)
  }

  /** The name can stand after a slash. */
  ghost predicate ValidMethod(name: Text) {
    name != [] && SLASH !in name && Readable([SLASH] + name)
  }

  ghost predicate ValidParameters(parameters: Option<Text>) {
    parameters.Some? ==> Readable([SLASH] + parameters.value)
  }

  predicate DoubleSlash(t: Text, i: nat) {
    i + 1 < |t| && t[i] == SLASH && t[i + 1] == SLASH
  }

  /** A part that ends at a slash or at the end of the text has the slashes that are misread in the text. */
  lemma MisreadInside(t: Text, before: Text, part: Text, after: Text, i: nat)
    requires t == before + part + after && i + 1 < |part| && (after == [] || after[0] == SLASH)
    ensures Misread(t, |before| + i) <==> Misread(part, i)
  {
    var p, q := t[|before| + i + 1..], part[i + 1..];
    assert p == q + after && t[|before| + i] == part[i];
    CodedIsHex(p[1..]);
    assert |q| > 4 ==> p[1..][..4] == q[1..][..4];
    assert |q| <= 4 && after != [] ==> p[1..][|q| - 1] == SLASH;
  }

  /** A name that ends before a slash or at the end of the text stays readable there. */
  lemma PartIsReadable(t: Text, before: Text, part: Text, after: Text)
    requires t == before + part + after && Readable(part) && (after == [] || after[0] == SLASH)
    requires part != [] && part[|part| - 1] == SLASH ==> after == []
    ensures forall i :: |before| <= i < |before| + |part| ==> !Misread(t, i)
  {
    forall i | |before| <= i < |before| + |part| ensures !Misread(t, i) {
      if i + 1 < |before| + |part| {
        MisreadInside(t, before, part, after, i - |before|);
      }
    }
  }

  lemma SlashBeforeSlash(t: Text, i: nat)
    requires i + 1 < |t| && t[i + 1] == SLASH
    ensures !Misread(t, i)
  {
  }

  lemma JoinedIsReadable(c: Text, m: Text, p: Option<Text>)
    requires ValidClass(c) && ValidMethod(m) && ValidParameters(p)
    ensures Readable(Joined(c, m, p))
  {
    assert p.Some? ==> Readable([SLASH] + p.value);
    hide Misread, Continues, Readable;
    var t := Joined(c, m, p);
    var named := [SLASH] + m;
    assert named[|m|] == m[|m| - 1] && m[|m| - 1] in m;
    match p
    case None =>
      assert t == [] + c + named && t == c + named + [];
      PartIsReadable(t, [], c, named);
      PartIsReadable(t, c, named, []);
    case Some(text) =>
      var tail := [SLASH] + text;
      var n := |c| + |named|;
      assert t == [] + c + (named + [SLASH] + tail) && t == c + named + ([SLASH] + tail) && t == (c + named + [SLASH]) + tail + [];
      PartIsReadable(t, [], c, named + [SLASH] + tail);
      PartIsReadable(t, c, named, [SLASH] + tail);
      PartIsReadable(t, c + named + [SLASH], tail, []);
      SlashBeforeSlash(t, n);
  }

  /** The first double slash, if any, is the one before the parameters. */
  lemma WhereDouble(c: Text, m: Text, p: Option<Text>, i: nat)
    requires ValidClass(c) && ValidMethod(m) && i <= |c| + 1 + |m|
    ensures DoubleSlash(Joined(c, m, p), i) <==> p.Some? && i == |c| + 1 + |m|
  {
    var t := Joined(c, m, p);
    var n := |c| + 1 + |m|;
    if i < |c| {
      assert t[i] == c[i] && (i + 1 < |c| ==> t[i + 1] == c[i + 1]);
    } else if i == |c| {
      assert t[i + 1] == m[0] && m[0] in m;
    } else if i < n {
      assert t[i] == m[i - |c| - 1] && t[i] in m;
    }
  }

  lemma SameHead(c1: Text, m1: Text, c2: Text, m2: Text, t: Text)
    requires ValidMethod(m1) && ValidMethod(m2) && |c1| + |m1| == |c2| + |m2|
    requires c1 + [SLASH] + m1 <= t && c2 + [SLASH] + m2 <= t
    ensures c1 == c2 && m1 == m2
  {
    assert t[|c1|] == SLASH == t[|c2|];
    forall i | |c1| < i <= |c1| + |m1| ensures t[i] != SLASH {
      assert t[i] == m1[i - |c1| - 1] && t[i] in m1;
    }
    forall i | |c2| < i <= |c2| + |m2| ensures t[i] != SLASH {
      assert t[i] == m2[i - |c2| - 1] && t[i] in m2;
    }
    assert |c1| == |c2|;
    assert c1 == t[..|c1|] && c2 == t[..|c2|];
    assert m1 == t[|c1| + 1..|c1| + 1 + |m1|] && m2 == t[|c2| + 1..|c2| + 1 + |m2|];
  }

  lemma SameParts(c1: Text, m1: Text, p1: Option<Text>, c2: Text, m2: Text, p2: Option<Text>)
    requires ValidClass(c1) && ValidMethod(m1) && ValidClass(c2) && ValidMethod(m2)
    requires Joined(c1, m1, p1) == Joined(c2, m2, p2)
    ensures c1 == c2 && m1 == m2 && p1 == p2
  {
    var t := Joined(c1, m1, p1);
    var n1, n2 := |c1| + 1 + |m1|, |c2| + 1 + |m2|;
    var n := if n1 < n2 then n1 else n2;
    WhereDouble(c1, m1, p1, n);
    WhereDouble(c2, m2, p2, n);
    assert n1 == n2 && p1.Some? == p2.Some?;
    SameHead(c1, m1, c2, m2, t);
    if p1.Some? {
      assert p1.value == t[n1 + 2..] == p2.value;
    }
  }

  /** Different valid methods have different C names. */
  lemma NamesDiffer(c1: Text, m1: Text, p1: Option<Text>, c2: Text, m2: Text, p2: Option<Text>)
    requires ValidClass(c1) && ValidMethod(m1) && ValidParameters(p1)
    requires ValidClass(c2) && ValidMethod(m2) && ValidParameters(p2)
    requires JAVA + Mangle(Joined(c1, m1, p1)) == JAVA + Mangle(Joined(c2, m2, p2))
    ensures c1 == c2 && m1 == m2 && p1 == p2
  {
    var t1, t2 := Joined(c1, m1, p1), Joined(c2, m2, p2);
    assert (JAVA + Mangle(t1))[5..] == Mangle(t1) && (JAVA + Mangle(t2))[5..] == Mangle(t2);
    JoinedIsReadable(c1, m1, p1);
    JoinedIsReadable(c2, m2, p2);
    ReadBackExactly(t1);
    ReadBackExactly(t2);
    assert t1 == t2;
    SameParts(c1, m1, p1, c2, m2, p2);
  }
}
