/**
 The flat JSON objects of coredump and coredumpctl: string escaping and its inverse, and a parser
 that goes line by line and trims.
 */
module Json {
  import opened Text

  // ---------- escaping ----------

  function HexDigit(d: nat): (c: char)
    requires d < 16
    ensures c != '\n' && c != '\r' && c != '"' && c != '\\' && c != '+'
  {
    if d < 10 then (48 + d) as char else (87 + d) as char
  }

  function EscapeChar(c: char): string
  {
    if c == '"' then "\\\""
    else if c == '\\' then "\\\\"
    else if c == '\n' then "\\n"
    else if c == '\r' then "\\r"
    else if c == '\t' then "\\t"
    else if c < ' ' then "\\u00" + [HexDigit(c as int / 16), HexDigit(c as int % 16)]
    else [c]
  }

  function Escape(s: string): string { if s == "" then "" else EscapeChar(s[0]) + Escape(s[1..]) }

  lemma {:induction false} EscapeAppend(a: string, b: string)
    ensures Escape(a + b) == Escape(a) + Escape(b)
  {
    if a == "" {
      assert a + b == b;
    } else {
      assert (a + b)[1..] == a[1..] + b;
      EscapeAppend(a[1..], b);
    }
  }

  lemma EscapeSnoc(s: string, i: nat)
    requires i < |s|
    ensures Escape(s[..i + 1]) == Escape(s[..i]) + EscapeChar(s[i])
  {
    hide EscapeChar;
    assert s[..i + 1] == s[..i] + [s[i]];
    EscapeAppend(s[..i], [s[i]]);
    assert Escape([s[i]]) == EscapeChar(s[i]) + Escape("");
  }

  method JsonEscape(s: string) returns (out: string)
    ensures out == Escape(s)
  {
    out := "";
    for i := 0 to |s|
      invariant out == Escape(s[..i])
    {
      hide Escape, HexDigit;
      EscapeSnoc(s, i);
      if s[i] == '"' {
        out := out + "\\\"";
      } else if s[i] == '\\' {
        out := out + "\\\\";
      } else if s[i] == '\n' {
        out := out + "\\n";
      } else if s[i] == '\r' {
        out := out + "\\r";
      } else if s[i] == '\t' {
        out := out + "\\t";
      } else if s[i] < ' ' {
        out := out + "\\u00" + [HexDigit(s[i] as int / 16), HexDigit(s[i] as int % 16)];
      } else {
        out := out + [s[i]];
      }
    }
    assert s[..|s|] == s;
  }

  function HexValue(c: char): Option<nat>
  {
    if '0' <= c <= '9' then Some(c as int - 48)
    else if 'a' <= c <= 'f' then Some(c as int - 87)
    else if 'A' <= c <= 'F' then Some(c as int - 55)
    else None
  }

  predicate HexDigits(s: string) { forall k :: 0 <= k < |s| ==> HexValue(s[k]).Some? }

  function HexNumber(s: string): nat
    requires HexDigits(s)
  {
    if s == "" then 0 else 16 * HexNumber(s[..|s| - 1]) + HexValue(s[|s| - 1]).value
  }

  /** The character of up to four hexadecimal digits, after an optional plus; surrogates are none. */
  function HexChar(s: string): Option<char>
    requires |s| <= 4
  {
    var digits := if s != "" && s[0] == '+' then s[1..] else s;
    if digits == "" || !HexDigits(digits) then None
    else
      HexBound(digits);
      var n := HexNumber(digits);
      if 0xD800 <= n < 0xE000 then None else Some(n as char)
  }

  lemma HexBound(s: string)
    requires |s| <= 4 && HexDigits(s)
    ensures HexNumber(s) < 0x10000
  {
    if |s| > 0 {
      var a := s[..|s| - 1];
      if |a| > 0 {
        var b := a[..|a| - 1];
        if |b| > 0 {
          assert HexNumber(b) < 256;
        }
      }
    }
  }

  function Prefix(s: string, n: nat): string { if |s| < n then s else s[..n] }

  function Suffix(s: string, n: nat): string { if |s| < n then "" else s[n..] }

  /** What one escape sequence, the text after a backslash, stands for, and the text after it. */
  function UnescapeOne(s: string): (r: (string, string))
    ensures |r.1| <= |s|
  {
    if s == "" then ("\\", "")
    else if s[0] == '"' then ("\"", s[1..])
    else if s[0] == '\\' then ("\\", s[1..])
    else if s[0] == 'n' then ("\n", s[1..])
    else if s[0] == 'r' then ("\r", s[1..])
    else if s[0] == 't' then ("\t", s[1..])
    else if s[0] == '/' then ("/", s[1..])
    else if s[0] == 'u' then
      (match HexChar(Prefix(s[1..], 4)) case Some(c) => [c] case None => "", Suffix(s[1..], 4))
    else ("\\" + [s[0]], s[1..])
  }

  function Unescape(s: string): string
    decreases |s|
  {
    if s == "" then ""
    else if s[0] == '\\' then
      var (text, rest) := UnescapeOne(s[1..]);
      text + Unescape(rest)
    else [s[0]] + Unescape(s[1..])
  }

  method JsonUnescape(s: string) returns (out: string)
    ensures out == Unescape(s)
  {
    hide UnescapeOne, Unescape;
    out := "";
    var chars := s;
    while chars != ""
      invariant out + Unescape(chars) == Unescape(s)
      decreases |chars|
    {
      UnescapeStep(chars);
      var text, rest := [chars[0]], chars[1..];
      if chars[0] == '\\' {
        text, rest := UnescapeOne(chars[1..]).0, UnescapeOne(chars[1..]).1;
      }
      assert out + (text + Unescape(rest)) == out + text + Unescape(rest);
      out, chars := out + text, rest;
    }
    assert Unescape("") == "" by { NothingToUnescape(); }
  }

  lemma NothingToUnescape()
    ensures Unescape("") == ""
  {
  }

  lemma UnescapeStep(s: string)
    requires s != ""
    ensures Unescape(s)
         == if s[0] == '\\' then UnescapeOne(s[1..]).0 + Unescape(UnescapeOne(s[1..]).1) else [s[0]] + Unescape(s[1..])
  {
    hide UnescapeOne;
  }

  lemma UnescapeEscapedChar(c: char, rest: string)
    ensures Unescape(EscapeChar(c) + rest) == [c] + Unescape(rest)
  {
    hide HexChar, HexDigit, Unescape, UnescapeOne;
    var e := EscapeChar(c);
    if |e| == 2 {
      UnescapePair(e[1], rest);
      assert e == "\\" + [e[1]];
    } else if |e| == 6 {
      UnescapeControl(c, rest);
    } else {
      UnescapeOther(c, rest);
    }
  }

  lemma UnescapeControl(c: char, rest: string)
    requires c < ' '
    ensures Unescape("\\u00" + [HexDigit(c as int / 16), HexDigit(c as int % 16)] + rest) == [c] + Unescape(rest)
  {
    hide HexChar, HexDigit;
    var hex := "00" + [HexDigit(c as int / 16), HexDigit(c as int % 16)];
    var s := "\\u00" + [HexDigit(c as int / 16), HexDigit(c as int % 16)] + rest;
    assert s[1..] == "u" + hex + rest && s[1..][1..] == hex + rest;
    assert Prefix(s[1..][1..], 4) == hex && Suffix(s[1..][1..], 4) == rest;
    HexOfControl(c);
  }

  lemma HexOfControl(c: char)
    requires c < ' '
    ensures HexChar("00" + [HexDigit(c as int / 16), HexDigit(c as int % 16)]) == Some(c)
  {
    hide HexChar;
    var high, low := HexDigit(c as int / 16), HexDigit(c as int % 16);
    assert "00" + [high, low] == ['0', '0', high, low];
    FourHex('0', '0', high, low);
  }

  /** Unescaping undoes escaping, whatever the string holds. */
  lemma {:induction false} UnescapeEscape(s: string)
    ensures Unescape(Escape(s)) == s
  {
    if s != "" {
      UnescapeEscapedChar(s[0], Escape(s[1..]));
      UnescapeEscape(s[1..]);
    }
  }

  /** Escaped text stays on its line. */
  lemma {:induction false} EscapeOneLine(s: string)
    ensures '\n' !in Escape(s) && '\r' !in Escape(s)
  {
    if s != "" {
      EscapeOneLine(s[1..]);
    }
  }

  // ---------- escaped text as JSON ----------

  function HexOf(c: char): nat
  {
    if '0' <= c <= '9' then c as int - '0' as int
    else if 'a' <= c <= 'f' then c as int - 'a' as int + 10
    else if 'A' <= c <= 'F' then c as int - 'A' as int + 10
    else 16
  }

  function Then(text: string, rest: Option<string>): Option<string>
  {
    match rest case None => None case Some(t) => Some(text + t)
  }

  /**
   The characters between the quotes of a JSON string, section 7 of RFC 8259: no bare quote, no
   control character, and after a backslash one of eight letters or `u` and four hexadecimal digits,
   here those of a character below U+D800.
   */
  function JsonMeaning(s: string): Option<string>
    decreases |s|
  {
    if s == "" then Some("")
    else if s[0] == '"' || s[0] < ' ' then None
    else if s[0] != '\\' then Then([s[0]], JsonMeaning(s[1..]))
    else if |s| < 2 then None
    else
      match s[1]
      case '"' => Then("\"", JsonMeaning(s[2..]))
      case '\\' => Then("\\", JsonMeaning(s[2..]))
      case '/' => Then("/", JsonMeaning(s[2..]))
      case 'b' => Then("\U{0008}", JsonMeaning(s[2..]))
      case 'f' => Then("\U{000C}", JsonMeaning(s[2..]))
      case 'n' => Then("\n", JsonMeaning(s[2..]))
      case 'r' => Then("\r", JsonMeaning(s[2..]))
      case 't' => Then("\t", JsonMeaning(s[2..]))
      case 'u' =>
        if |s| < 6 || HexOf(s[2]) > 15 || HexOf(s[3]) > 15 || HexOf(s[4]) > 15 || HexOf(s[5]) > 15 then None
        else
          var n := 4096 * HexOf(s[2]) + 256 * HexOf(s[3]) + 16 * HexOf(s[4]) + HexOf(s[5]);
          if n < 0xD800 then Then([n as char], JsonMeaning(s[6..])) else None
      case _ => None
  }

  lemma EscapedCharMeans(c: char, rest: string)
    ensures JsonMeaning(EscapeChar(c) + rest) == Then([c], JsonMeaning(rest))
  {
    var s := EscapeChar(c) + rest;
    assert s[|EscapeChar(c)|..] == rest;
  }

  /** To any reader of JSON, escaped text is the text. */
  lemma {:induction false} EscapeIsJson(s: string)
    ensures JsonMeaning(Escape(s)) == Some(s)
  {
    if s != "" {
      EscapeIsJson(s[1..]);
      EscapedCharMeans(s[0], Escape(s[1..]));
      assert s == [s[0]] + s[1..];
    }
  }

  /** Where a quoted string ends for a scanner that only knows that a backslash takes the next character with it. */
  function Closing(s: string): nat
    decreases |s|
  {
    if s == "" || s[0] == '"' then 0
    else if s[0] == '\\' && |s| > 1 then 2 + Closing(s[2..])
    else 1 + Closing(s[1..])
  }

  lemma {:induction false} ClosingSkips(n: nat, s: string)
    requires n <= |s| && forall k :: 0 <= k < n ==> s[k] != '"' && s[k] != '\\'
    ensures Closing(s) == n + Closing(s[n..])
  {
    if n > 0 {
      ClosingSkips(n - 1, s[1..]);
      assert s[1..][n - 1..] == s[n..];
    } else {
      assert s[0..] == s;
    }
  }

  lemma ClosingAfterChar(c: char, rest: string)
    ensures Closing(EscapeChar(c) + rest) == |EscapeChar(c)| + Closing(rest)
  {
    var e := EscapeChar(c);
    var s := e + rest;
    if |e| == 1 {
      assert s[1..] == rest;
    } else {
      assert s[2..][|e| - 2..] == rest;
      assert forall k :: 0 <= k < |e| - 2 ==> s[2..][k] == e[k + 2];
      ClosingSkips(|e| - 2, s[2..]);
    }
  }

  lemma ClosingAtQuote(rest: string)
    ensures Closing("\"" + rest) == 0
  {
  }

  /** A quoted escaped string ends at the quote that was put there, whatever follows. */
  lemma {:induction false} EscapedEndsAtQuote(s: string, rest: string)
    ensures Closing(Escape(s) + "\"" + rest) == |Escape(s)|
  {
    hide Closing, EscapeChar;
    if s != "" {
      var tail := Escape(s[1..]) + "\"" + rest;
      EscapedEndsAtQuote(s[1..], rest);
      ClosingAfterChar(s[0], tail);
      assert Escape(s) + "\"" + rest == EscapeChar(s[0]) + tail;
    } else {
      ClosingAtQuote(rest);
      assert Escape(s) + "\"" + rest == "\"" + rest;
    }
  }

  // ---------- what unescaping makes of any text ----------

  /** One character after a backslash; one that is not known stays, with its backslash. */
  lemma UnescapePair(c: char, rest: string)
    ensures c != 'u' ==>
      Unescape("\\" + [c] + rest)
      == (match c
          case '"' => "\""
          case '\\' => "\\"
          case '/' => "/"
          case 'n' => "\n"
          case 'r' => "\r"
          case 't' => "\t"
          case _ => "\\" + [c])
         + Unescape(rest)
  {
    hide HexChar;
    assert ("\\" + [c] + rest)[1..] == [c] + rest && ([c] + rest)[1..] == rest;
  }

  /** Any other character stays, and so does a backslash at the end. */
  lemma UnescapeOther(c: char, rest: string)
    ensures c != '\\' ==> Unescape([c] + rest) == [c] + Unescape(rest)
    ensures Unescape("\\") == "\\"
  {
    assert ([c] + rest)[1..] == rest;
    assert "\\"[1..] == "";
    assert UnescapeOne("") == ("\\", "");
  }

  /** `u` and four hexadecimal digits are their character, or nothing for a surrogate; anything else is dropped with it. */
  lemma UnescapeUnicode(a: char, b: char, c: char, d: char, rest: string)
    ensures var n := 4096 * HexOf(a) + 256 * HexOf(b) + 16 * HexOf(c) + HexOf(d);
      HexOf(a) < 16 && HexOf(b) < 16 && HexOf(c) < 16 && HexOf(d) < 16 ==>
        Unescape("\\u" + [a, b, c, d] + rest) == (if 0xD800 <= n < 0xE000 then "" else [n as char]) + Unescape(rest)
    ensures (HexOf(a) > 15 && a != '+') || HexOf(b) > 15 || HexOf(c) > 15 || HexOf(d) > 15 ==>
      Unescape("\\u" + [a, b, c, d] + rest) == Unescape(rest)
  {
    var hex := [a, b, c, d];
    var s := "\\u" + hex + rest;
    assert s[1..] == "u" + hex + rest && s[1..][1..] == hex + rest;
    assert Prefix(s[1..][1..], 4) == hex && Suffix(s[1..][1..], 4) == rest;
    FourHex(a, b, c, d);
  }

  lemma FourHex(a: char, b: char, c: char, d: char)
    ensures var n := 4096 * HexOf(a) + 256 * HexOf(b) + 16 * HexOf(c) + HexOf(d);
      HexOf(a) < 16 && HexOf(b) < 16 && HexOf(c) < 16 && HexOf(d) < 16 ==>
        HexChar([a, b, c, d]) == if 0xD800 <= n < 0xE000 then None else Some(n as char)
    ensures (HexOf(a) > 15 && a != '+') || HexOf(b) > 15 || HexOf(c) > 15 || HexOf(d) > 15 ==> HexChar([a, b, c, d]) == None
  {
    var hex := [a, b, c, d];
    assert hex[1..] == [b, c, d];
    assert HexDigits(hex) ==> HexValue(hex[0]).Some? && HexValue(hex[1]).Some? && HexValue(hex[2]).Some? && HexValue(hex[3]).Some?;
    assert HexDigits([b, c, d]) ==> HexValue([b, c, d][0]).Some? && HexValue([b, c, d][1]).Some? && HexValue([b, c, d][2]).Some?;
    if HexDigits(hex) {
      assert hex[..3] == [a, b, c] && [a, b, c][..2] == [a, b] && [a, b][..1] == [a] && [a][..0] == [];
      assert HexNumber([a]) == HexOf(a);
      assert HexNumber([a, b]) == 16 * HexOf(a) + HexOf(b);
      assert HexNumber([a, b, c]) == 256 * HexOf(a) + 16 * HexOf(b) + HexOf(c);
      assert HexNumber(hex) == 16 * HexNumber([a, b, c]) + HexOf(d);
    }
  }

  // ---------- the object parser ----------

  function TrimEndChar(s: string, c: char): string
  {
    if s != "" && s[|s| - 1] == c then TrimEndChar(s[..|s| - 1], c) else s
  }

  function TrimStartChar(s: string, c: char): string
  {
    if s != "" && s[0] == c then TrimStartChar(s[1..], c) else s
  }

  function TrimChar(s: string, c: char): string { TrimEndChar(TrimStartChar(s, c), c) }

  /** A value as written: a quoted string is unescaped, anything else is taken as it stands. */
  function DecodeValue(value: string): string
  {
    if |value| >= 2 && value[0] == '"' && value[|value| - 1] == '"' then Unescape(value[1..|value| - 1]) else value
  }

  /** The key and value of one line, if it has a colon. */
  function Entry(line: string): Option<(string, string)>
  {
    match SplitOnce(TrimEndChar(Trim(line), ','), ':')
    case None => None
    case Some((key, value)) => Some((TrimChar(Trim(key), '"'), DecodeValue(Trim(value))))
  }

  function Insert(m: map<string, string>, entry: Option<(string, string)>): map<string, string>
  {
    match entry case None => m case Some((key, value)) => m[key := value]
  }

  /** The entries of the lines in order; a later one replaces an earlier one of its key. */
  function Entries(lines: seq<string>): map<string, string>
  {
    if lines == [] then map[] else Insert(Entries(lines[..|lines| - 1]), Entry(lines[|lines| - 1]))
  }

  function StripReturn(line: string): string
  {
    if line != "" && line[|line| - 1] == '\r' then line[..|line| - 1] else line
  }

  /** The lines of a text; only a line that ends may lose a carriage return, and a final empty piece is no line. */
  function Lines(s: string): seq<string>
  {
    var pieces := Split(s, '\n');
    var n := |pieces| - 1;
    seq(n, k requires 0 <= k < n => StripReturn(pieces[k])) + (if pieces[n] == "" then [] else [pieces[n]])
  }

  predicate IsBraced(s: string) { |s| >= 2 && s[0] == '{' && s[|s| - 1] == '}' }

  function ParsedObject(s: string): Option<map<string, string>>
  {
    var t := Trim(s);
    if IsBraced(t) then Some(Entries(Lines(t[1..|t| - 1]))) else None
  }

  method ParseJsonObject(s: string) returns (r: Option<map<string, string>>)
    ensures r == ParsedObject(s)
  {
    var t := Trim(s);
    if !IsBraced(t) {
      return None;
    }
    var m := ParseLines(Lines(t[1..|t| - 1]));
    r := Some(m);
  }

  method ParseLines(lines: seq<string>) returns (m: map<string, string>)
    ensures m == Entries(lines)
  {
    hide Trim, TrimEndChar, SplitOnce, TrimChar, DecodeValue, Entries;
    m := map[];
    EntriesStep(lines, 0);
    for i := 0 to |lines|
      invariant m == Entries(lines[..i])
    {
      EntriesStep(lines, i);
      var line := TrimEndChar(Trim(lines[i]), ',');
      if line == "" {
        EmptyLine();
        continue;
      }
      var parts := SplitOnce(line, ':');
      if parts.Some? {
        var (keyPart, valuePart) := parts.value;
        m := m[TrimChar(Trim(keyPart), '"') := DecodeValue(Trim(valuePart))];
      }
    }
    assert lines[..|lines|] == lines;
  }

  lemma EntriesStep(lines: seq<string>, i: nat)
    ensures Entries(lines[..0]) == map[]
    ensures i < |lines| ==> Entries(lines[..i + 1]) == Insert(Entries(lines[..i]), Entry(lines[i]))
  {
    hide Entry, Insert;
    if i < |lines| {
      assert lines[..i + 1][..i] == lines[..i];
    }
  }

  lemma EmptyLine()
    ensures SplitOnce("", ':') == None
  {
  }

  // ---------- reading written lines ----------

  /** Every line with its newline. */
  function Unlines(lines: seq<string>): string { if lines == [] then "" else lines[0] + "\n" + Unlines(lines[1..]) }

  lemma {:induction false} UnlinesSnoc(lines: seq<string>, line: string)
    ensures Unlines(lines + [line]) == Unlines(lines) + line + "\n"
  {
    if lines != [] {
      assert (lines + [line])[1..] == lines[1..] + [line];
      UnlinesSnoc(lines[1..], line);
    }
  }

  lemma {:induction false} SplitUnlines(lines: seq<string>)
    requires forall k :: 0 <= k < |lines| ==> '\n' !in lines[k]
    ensures Split(Unlines(lines), '\n') == lines + [""]
  {
    if lines == [] {
      SplitSingle("", '\n');
    } else {
      SplitFirst(lines[0], '\n', Unlines(lines[1..]));
      assert Unlines(lines) == lines[0] + ['\n'] + Unlines(lines[1..]);
      SplitUnlines(lines[1..]);
    }
  }

  /** The lines between the braces of a written object, after the empty rest of the first. */
  lemma LinesOfUnlines(lines: seq<string>)
    requires forall k :: 0 <= k < |lines| ==> '\n' !in lines[k] && '\r' !in lines[k]
    ensures Lines("\n" + Unlines(lines)) == [""] + lines
  {
    hide Split, Unlines, Lines;
    var text := Unlines(lines);
    SplitUnlines(lines);
    SplitNewline(text);
    assert [""] + (lines + [""]) == [""] + lines + [""];
    LinesOfPieces("\n" + text, [""] + lines);
  }

  lemma SplitNewline(text: string)
    ensures Split("\n" + text, '\n') == [""] + Split(text, '\n')
  {
    hide Split;
    assert "\n" + text == [] + ['\n'] + text;
    SplitFirst([], '\n', text);
  }

  lemma LinesOfPieces(s: string, pieces: seq<string>)
    requires Split(s, '\n') == pieces + [""]
    requires forall k :: 0 <= k < |pieces| ==> '\r' !in pieces[k]
    ensures Lines(s) == pieces
  {
    hide Split;
    assert (pieces + [""])[..|pieces|] == pieces;
    assert forall k :: 0 <= k < |pieces| ==> StripReturn(pieces[k]) == pieces[k];
  }

  /** A line whose key no later line has decides its key. */
  lemma {:induction false} EntriesLookup(lines: seq<string>, k: nat, key: string, value: string)
    requires k < |lines| && Entry(lines[k]) == Some((key, value))
    requires forall j :: k < j < |lines| ==> Entry(lines[j]).None? || Entry(lines[j]).value.0 != key
    ensures key in Entries(lines) && Entries(lines)[key] == value
  {
    hide Entry;
    if k < |lines| - 1 {
      EntriesLookup(lines[..|lines| - 1], k, key, value);
    }
  }

  /** A key that needs no care: no quotes, colons, white space. */
  predicate PlainKey(key: string)
  {
    key != "" && forall k :: 0 <= k < |key| ==> 'A' <= key[k] <= 'Z' || key[k] == '_'
  }

  lemma TrimQuotes(key: string)
    requires PlainKey(key)
    ensures TrimChar("\"" + key + "\"", '"') == key
    ensures Trim("\"" + key + "\"") == "\"" + key + "\"" && ':' !in "\"" + key + "\""
  {
    var s := "\"" + key + "\"";
    TrimTight(s);
    var t := key + "\"";
    assert s[1..] == t && t[..|key|] == key;
    assert TrimStartChar(t, '"') == t && TrimStartChar(s, '"') == t;
    assert TrimEndChar(key, '"') == key && TrimEndChar(t, '"') == key;
  }

  /** A written line comes apart into its key and its value. */
  lemma EntryOfLine(key: string, value: string, comma: string)
    requires PlainKey(key) && Tight(value) && value[|value| - 1] != ',' && (comma == "" || comma == ",")
    ensures Entry("  \"" + key + "\": " + value + comma) == Some((key, DecodeValue(value)))
  {
    hide DecodeValue, TrimChar, PlainKey;
    var quoted := "\"" + key + "\"";
    TrimQuotes(key);
    var body := quoted + [':'] + (" " + value);
    var line := "  \"" + key + "\": " + value + comma;
    assert line == "  " + (body + comma);
    TrimLine(body, comma);
    SplitOnceFirst(quoted, ':', " " + value);
    TrimTight(value);
    assert (" " + value)[1..] == value;
  }

  lemma TrimLine(body: string, comma: string)
    requires body != "" && body[0] == '"' && !IsWhitespace(body[|body| - 1]) && body[|body| - 1] != ','
    requires comma == "" || comma == ","
    ensures TrimEndChar(Trim("  " + (body + comma)), ',') == body
  {
    var s := body + comma;
    assert ("  " + s)[1..] == " " + s && (" " + s)[1..] == s;
    assert s[|s| - 1] == if comma == "" then body[|body| - 1] else ',';
    TrimTight(s);
    assert TrimStart(" " + s) == s && TrimStart("  " + s) == s;
    assert TrimEndChar(body, ',') == body;
    if comma == "," {
      assert s[..|s| - 1] == body;
    } else {
      assert s == body;
    }
  }

  lemma DecodeString(s: string)
    ensures DecodeValue("\"" + Escape(s) + "\"") == s
  {
    hide Unescape, Escape;
    var v := "\"" + Escape(s) + "\"";
    assert v[1..|v| - 1] == Escape(s);
    UnescapeEscape(s);
  }
}
