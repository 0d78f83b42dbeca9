/** CPython's `repr` of a `str`, as `str(OSError)` uses it to show the file name, and a
    decoder for the string literals it produces. */
module Repr {
  import opened Wrappers

  /** `str.isprintable` on one code point. ASCII is exact; beyond ASCII the code points
      rejected are the C1 controls, the separators other than the space, the soft hyphen, the
      common format characters, the private-use areas and the unassigned tails listed here. */
  predicate IsPrintable(c: char) {
    (' ' <= c <= '~') || (c > '\U{7F}' && !Hidden(c as int))
  }

  predicate Hidden(n: int) {
    (0x80 <= n <= 0xA0) || n == 0xAD || (0x600 <= n <= 0x605) || n == 0x61C || n == 0x6DD
    || n == 0x70F || n == 0x1680 || n == 0x180E || (0x2000 <= n <= 0x200F)
    || (0x2028 <= n <= 0x202F) || (0x205F <= n <= 0x206F) || n == 0x3000
    || (0xE000 <= n <= 0xF8FF) || n == 0xFEFF || (0xFFF0 <= n <= 0xFFFB) || 0xFFFE <= n <= 0xFFFF
    || (0xE0000 <= n <= 0xE00FF) || n >= 0xF0000
  }

  /** The quote `repr` puts around `s`: `"` when `s` holds `'` but no `"`, else `'`. */
  function Quote(s: string): char {
    if '\'' in s && '"' !in s then '"' else '\''
  }

  function Pow16(w: nat): (r: nat)
    ensures r > 0
  {
    if w == 0 then 1 else 16 * Pow16(w - 1)
  }

  /** A lower-case hexadecimal digit. */
  function HexDigit(d: nat): char
    requires d < 16
  {
    if d < 10 then ('0' as int + d) as char else ('a' as int + d - 10) as char
  }

  /** The last `w` hexadecimal digits of `n`, lower case, zero-padded. */
  function Hex(n: nat, w: nat): (r: string)
    ensures |r| == w
  {
    if w == 0 then [] else Hex(n / 16, w - 1) + [HexDigit(n % 16)]
  }

  /** How `repr` writes one code point inside quotes `q`. */
  function EscapeChar(c: char, q: char): string {
    if c == q || c == '\\' then ['\\', c]
    else if c == '\t' then "\\t"
    else if c == '\n' then "\\n"
    else if c == '\r' then "\\r"
    else if IsPrintable(c) then [c]
    else if c as int < 0x100 then "\\x" + Hex(c as int, 2)
    else if c as int < 0x10000 then "\\u" + Hex(c as int, 4)
    else "\\U" + Hex(c as int, 8)
  }

  function EscapeAll(s: string, q: char): string {
    if s == [] then [] else EscapeChar(s[0], q) + EscapeAll(s[1..], q)
  }

  /** `repr(s)` for a `str`. */
  function PyRepr(s: string): (r: string)
    ensures |r| >= 2 && r[0] == r[|r| - 1] == Quote(s)
  {
    [Quote(s)] + EscapeAll(s, Quote(s)) + [Quote(s)]
  }

  // ---- Reading a literal back ---------------------------------------------------------------

  function HexDigitValue(c: char): Option<nat> {
    if '0' <= c <= '9' then Some(c as int - '0' as int)
    else if 'a' <= c <= 'f' then Some(c as int - 'a' as int + 10)
    else if 'A' <= c <= 'F' then Some(c as int - 'A' as int + 10)
    else None
  }

  function HexValue(d: string): Option<nat> {
    if d == [] then Some(0)
    else match (HexValue(d[..|d| - 1]), HexDigitValue(d[|d| - 1]))
      case (Some(a), Some(b)) => Some(16 * a + b)
      case _ => None
  }

  /** The code point a `\x`, `\u` or `\U` escape names, when it is one. */
  function CodePoint(d: string): Option<char> {
    match HexValue(d)
    case Some(v) => if v < 0xD800 || 0xE000 <= v < 0x11_0000 then Some(v as char) else None
    case None => None
  }

  function Prepend(c: char, o: Option<string>): Option<string> {
    match o
    case Some(t) => Some([c] + t)
    case None => None
  }

  /** The number of hexadecimal digits after `\x`, `\u` and `\U`; 0 for any other letter. */
  function EscapeWidth(e: char): nat {
    if e == 'x' then 2 else if e == 'u' then 4 else if e == 'U' then 8 else 0
  }

  /** The text between the quotes of a Python string literal, with its backslash escapes
      (`\\`, `\'`, `\"`, `\t`, `\n`, `\r`, `\xhh`, `\uhhhh`, `\Uhhhhhhhh`) decoded. */
  function Unescape(b: string): Option<string>
    decreases |b|
  {
    if b == [] then Some([])
    else if b[0] != '\\' then Prepend(b[0], Unescape(b[1..]))
    else if |b| < 2 then None
    else if b[1] == '\\' || b[1] == '\'' || b[1] == '"' then Prepend(b[1], Unescape(b[2..]))
    else if b[1] == 't' then Prepend('\t', Unescape(b[2..]))
    else if b[1] == 'n' then Prepend('\n', Unescape(b[2..]))
    else if b[1] == 'r' then Prepend('\r', Unescape(b[2..]))
    else
      var w := EscapeWidth(b[1]);
      if w == 0 || |b| < 2 + w then None
      else match CodePoint(b[2..2 + w])
        case Some(c) => Prepend(c, Unescape(b[2 + w..]))
        case None => None
  }

  /** The string a quoted literal stands for. */
  function Unrepr(r: string): Option<string> {
    if |r| >= 2 && (r[0] == '\'' || r[0] == '"') && r[|r| - 1] == r[0] then Unescape(r[1..|r| - 1])
    else None
  }

  // ---- Properties ---------------------------------------------------------------------------

  /** Reading the literal back gives the string: `repr` loses nothing. */
  lemma ReprRoundTrip(s: string)
    ensures Unrepr(PyRepr(s)) == Some(s)
  {
    var r := PyRepr(s);
    assert r[1..|r| - 1] == EscapeAll(s, Quote(s));
    UnescapeAll(s, Quote(s));
  }

  lemma {:induction false} UnescapeAll(s: string, q: char)
    requires q == '\'' || q == '"'
    ensures Unescape(EscapeAll(s, q)) == Some(s)
  {
    if s != [] {
      var tail := EscapeAll(s[1..], q);
      assert EscapeAll(s, q) == EscapeChar(s[0], q) + tail;
      UnescapeChar(s[0], q, tail);
      UnescapeAll(s[1..], q);
      assert [s[0]] + s[1..] == s;
    }
  }

  /** Decoding one escaped code point consumes exactly its escape. */
  lemma UnescapeChar(c: char, q: char, t: string)
    requires q == '\'' || q == '"'
    ensures Unescape(EscapeChar(c, q) + t) == Prepend(c, Unescape(t))
  {
    var b := EscapeChar(c, q) + t;
    var n := c as int;
    if c == q || c == '\\' || c == '\t' || c == '\n' || c == '\r' {
      assert b[2..] == t;
    } else if IsPrintable(c) {
      assert b[1..] == t;
    } else if n < 0x100 {
      UnescapeHex(n, 'x', t);
    } else if n < 0x10000 {
      UnescapeHex(n, 'u', t);
    } else {
      assert n < 0x11_0000;
      UnescapeHex(n, 'U', t);
    }
  }

  lemma UnescapeHex(n: nat, e: char, t: string)
    requires EscapeWidth(e) > 0
    requires n < 0xD800 || 0xE000 <= n < 0x11_0000
    requires n < Pow16(EscapeWidth(e))
    ensures Unescape(['\\', e] + Hex(n, EscapeWidth(e)) + t) == Prepend(n as char, Unescape(t))
  {
    var w := EscapeWidth(e);
    var b := ['\\', e] + Hex(n, w) + t;
    assert b[2..2 + w] == Hex(n, w);
    assert b[2 + w..] == t;
    HexRoundTrip(n, w);
    assert CodePoint(b[2..2 + w]) == Some(n as char);
  }

  lemma {:induction false} HexRoundTrip(n: nat, w: nat)
    requires n < Pow16(w)
    ensures HexValue(Hex(n, w)) == Some(n)
  {
    if w > 0 {
      var h := Hex(n / 16, w - 1);
      assert Hex(n, w)[..|h|] == h;
      HexRoundTrip(n / 16, w - 1);
    }
  }

  /** A string without `'`, `\` or anything non-printable is shown between single quotes as it
      is. */
  lemma ReprPlain(s: string)
    requires forall i :: 0 <= i < |s| ==> s[i] != '\'' && s[i] != '\\' && IsPrintable(s[i])
    ensures PyRepr(s) == "'" + s + "'"
  {
    assert Quote(s) == '\'';
    EscapePlain(s);
  }

  lemma {:induction false} EscapePlain(s: string)
    requires forall i :: 0 <= i < |s| ==> s[i] != '\'' && s[i] != '\\' && IsPrintable(s[i])
    ensures EscapeAll(s, '\'') == s
  {
    if s != [] {
      EscapePlain(s[1..]);
      assert [s[0]] + s[1..] == s;
    }
  }

  /** A string holding `'` but no `"` is shown between double quotes, its `'` unescaped. */
  lemma ReprApostrophe(s: string)
    requires '\'' in s && '"' !in s
    requires forall i :: 0 <= i < |s| ==> s[i] != '\\' && IsPrintable(s[i])
    ensures PyRepr(s) == "\"" + s + "\""
  {
    EscapeUnquoted(s);
  }

  lemma {:induction false} EscapeUnquoted(s: string)
    requires '"' !in s
    requires forall i :: 0 <= i < |s| ==> s[i] != '\\' && IsPrintable(s[i])
    ensures EscapeAll(s, '"') == s
  {
    if s != [] {
      assert '"' !in s[1..];
      EscapeUnquoted(s[1..]);
      assert [s[0]] + s[1..] == s;
    }
  }
}
