/** The parts of Go's strings and strconv packages that the agent's parsers rely on. */
module Text {
  import opened Wrappers

  /** Unicode white space, as strings.TrimSpace and strings.Fields see it. */
  predicate IsSpace(c: char) {
    || '\t' <= c <= '\r'
    || c == ' '
    || c == '\U{85}'
    || c == '\U{A0}'
    || c == '\U{1680}'
    || '\U{2000}' <= c <= '\U{200A}'
    || c == '\U{2028}'
    || c == '\U{2029}'
    || c == '\U{202F}'
    || c == '\U{205F}'
    || c == '\U{3000}'
  }

  /** The white space of ASCII is tab, line feed, vertical tab, form feed, carriage return and space. */
  lemma AsciiSpace(c: char)
    requires c < '\U{80}'
    ensures IsSpace(c) <==> c in [9 as char, 10 as char, 11 as char, 12 as char, 13 as char, 32 as char]
  {
  }

  function TrimLeft(s: string): string {
    if s != "" && IsSpace(s[0]) then TrimLeft(s[1..]) else s
  }

  function TrimRight(s: string): string {
    if s != "" && IsSpace(s[|s| - 1]) then TrimRight(s[..|s| - 1]) else s
  }

  function TrimSpace(s: string): string {
    TrimRight(TrimLeft(s))
  }

  predicate Trimmed(s: string) {
    s != "" ==> !IsSpace(s[0]) && !IsSpace(s[|s| - 1])
  }

  predicate AllSpace(s: string) {
    forall i :: 0 <= i < |s| ==> IsSpace(s[i])
  }

  lemma {:induction false} TrimLeftStarts(s: string)
    ensures TrimLeft(s) != "" ==> !IsSpace(TrimLeft(s)[0])
    ensures |TrimLeft(s)| <= |s| && TrimLeft(s) == s[|s| - |TrimLeft(s)|..] && AllSpace(s[..|s| - |TrimLeft(s)|])
  {
    if s != "" && IsSpace(s[0]) {
      var rest := s[1..];
      TrimLeftStarts(rest);
      var cut := |rest| - |TrimLeft(rest)|;
      assert s[cut + 1..] == rest[cut..];
      assert s[..cut + 1] == [s[0]] + rest[..cut];
    }
  }

  lemma {:induction false} TrimRightEnds(s: string)
    ensures TrimRight(s) <= s
    ensures TrimRight(s) != "" ==> !IsSpace(TrimRight(s)[|TrimRight(s)| - 1])
    ensures AllSpace(s[|TrimRight(s)|..])
  {
    if s != "" && IsSpace(s[|s| - 1]) {
      var rest := s[..|s| - 1];
      TrimRightEnds(rest);
      assert s[|TrimRight(rest)|..] == rest[|TrimRight(rest)|..] + [s[|s| - 1]];
    }
  }

  /** Trimming leaves no white space at either end, and changes nothing that has none. */
  lemma TrimSpaceTrims(s: string)
    ensures Trimmed(TrimSpace(s))
    ensures Trimmed(s) ==> TrimSpace(s) == s
  {
    TrimLeftStarts(s);
    TrimRightEnds(TrimLeft(s));
  }

  /** What trimming cuts off at either end is white space only. */
  lemma TrimSpaceCuts(s: string)
    ensures |TrimLeft(s)| <= |s| && TrimSpace(s) <= TrimLeft(s)
    ensures var front, back := s[..|s| - |TrimLeft(s)|], TrimLeft(s)[|TrimSpace(s)|..];
            s == front + TrimSpace(s) + back && AllSpace(front) && AllSpace(back)
  {
    TrimLeftStarts(s);
    TrimRightEnds(TrimLeft(s));
    Rejoin(s, |s| - |TrimLeft(s)|, TrimLeft(s), TrimSpace(s));
  }

  lemma Rejoin(s: string, cut: nat, tail: string, kept: string)
    requires cut <= |s| && tail == s[cut..] && kept <= tail
    ensures s == s[..cut] + kept + tail[|kept|..]
  {
    assert tail == kept + tail[|kept|..];
    assert s == s[..cut] + tail;
  }

  predicate HasPrefix(s: string, prefix: string) {
    prefix <= s
  }

  /** Lower case for ASCII, and for the two other letters whose lower case is ASCII. */
  function ToLower(s: string): (r: string)
    ensures |r| == |s|
  {
    seq(|s|, i requires 0 <= i < |s| =>
      if 'A' <= s[i] <= 'Z' then s[i] + 32 as char
      else if s[i] == '\U{212A}' then 'k'
      else if s[i] == '\U{130}' then 'i'
      else s[i])
  }

  lemma LowerConcat(a: string, b: string)
    ensures ToLower(a + b) == ToLower(a) + ToLower(b)
  {
  }

  /** ASCII letters lose their case and nothing else of ASCII changes. */
  lemma LowerAscii(s: string)
    ensures ToLower("ABCDEFGHIJKLMNOPQRSTUVWXYZ") == "abcdefghijklmnopqrstuvwxyz"
    ensures (forall c | c in s :: c < '\U{80}' && c !in "ABCDEFGHIJKLMNOPQRSTUVWXYZ") ==> ToLower(s) == s
  {
    if forall c | c in s :: c < '\U{80}' && c !in "ABCDEFGHIJKLMNOPQRSTUVWXYZ" {
      forall i | 0 <= i < |s|
        ensures ToLower(s)[i] == s[i]
      {
        UpperPlace(s[i]);
      }
    }
  }

  lemma UpperPlace(c: char)
    ensures 'A' <= c <= 'Z' ==> c in "ABCDEFGHIJKLMNOPQRSTUVWXYZ"
  {
    if 'A' <= c <= 'Z' {
      assert "ABCDEFGHIJKLMNOPQRSTUVWXYZ"[(c - 'A') as int] == c;
    }
  }

  // Decimal numbers.

  predicate IsDigit(c: char) {
    '0' <= c <= '9'
  }

  function Digit(d: nat): char
    requires d < 10
  {
    '0' + d as char
  }

  function FormatUint(n: nat): (r: string)
    ensures r != ""
    ensures forall i :: 0 <= i < |r| ==> IsDigit(r[i])
  {
    if n < 10 then [Digit(n)] else FormatUint(n / 10) + [Digit(n % 10)]
  }

  function ParseDigits(s: string): Option<nat> {
    if s == "" then Some(0)
    else if !IsDigit(s[|s| - 1]) then None
    else
      var high := ParseDigits(s[..|s| - 1]);
      if high == None then None else Some(10 * high.value + (s[|s| - 1] - '0') as nat)
  }

  /** strconv.ParseUint(s, 10, 64): empty text, other characters and overflow are errors. */
  function ParseUint(s: string): Option<u64> {
    if s == "" then None
    else
      var n := ParseDigits(s);
      if n == None || n.value >= TWO_64 then None else Some(n.value)
  }

  lemma {:induction false} ParseDigitsFormat(n: nat)
    ensures ParseDigits(FormatUint(n)) == Some(n)
  {
    if n >= 10 {
      ParseDigitsFormat(n / 10);
      var s := FormatUint(n);
      assert s[..|s| - 1] == FormatUint(n / 10);
    } else {
      assert FormatUint(n)[..0] == "";
      assert ParseDigits(FormatUint(n)[..0]) == Some(0);
    }
  }

  /** Printing and parsing a number gives it back exactly when it fits 64 bits. */
  lemma ParseUintFormat(n: nat)
    ensures ParseUint(FormatUint(n)) == if n < TWO_64 then Some(n) else None
  {
    ParseDigitsFormat(n);
  }

  /** Decimal notation: a further digit multiplies by ten and adds its place in "0123456789". */
  lemma NextDigit(s: string, n: nat, d: nat)
    requires d < 10 && ParseDigits(s) == Some(n)
    ensures ParseDigits(s + ["0123456789"[d]]) == Some(10 * n + d)
    ensures ParseDigits("") == Some(0)
  {
    assert (s + ["0123456789"[d]])[..|s|] == s;
    assert "0123456789"[d] == '0' + d as char;
  }

  /** Text with anything but decimal digits is no number. */
  lemma {:induction false} OnlyDigits(s: string)
    ensures ParseDigits(s).Some? <==> forall c | c in s :: c in "0123456789"
    ensures ParseUint(s).Some? ==> s != ""
  {
    if s != "" {
      var last := s[|s| - 1];
      OnlyDigits(s[..|s| - 1]);
      DigitPlace(last);
      assert forall c :: c in s <==> c == last || c in s[..|s| - 1];
    }
  }

  lemma DigitPlace(c: char)
    ensures IsDigit(c) <==> c in "0123456789"
  {
    if IsDigit(c) {
      assert "0123456789"[(c - '0') as int] == c;
    }
  }

  /** A printed number has no white space to trim. */
  lemma FormatUintTrimmed(n: nat)
    ensures TrimSpace(FormatUint(n)) == FormatUint(n)
  {
    var s := FormatUint(n);
    assert IsDigit(s[0]) && IsDigit(s[|s| - 1]);
    TrimSpaceTrims(s);
  }

  // Cutting text.

  /** strings.Split on one character: one piece more than there are separators. */
  function Split(s: string, sep: char): (r: seq<string>)
    ensures r != []
  {
    if s == "" then [""]
    else
      var rest := Split(s[1..], sep);
      if s[0] == sep then [""] + rest else [[s[0]] + rest[0]] + rest[1..]
  }

  function Join(pieces: seq<string>, sep: char): string
    requires pieces != []
  {
    if |pieces| == 1 then pieces[0] else pieces[0] + [sep] + Join(pieces[1..], sep)
  }

  /** Splitting loses nothing and leaves no separator in a piece. */
  lemma {:induction false} SplitJoin(s: string, sep: char)
    ensures Join(Split(s, sep), sep) == s
    ensures forall i :: 0 <= i < |Split(s, sep)| ==> sep !in Split(s, sep)[i]
  {
    if s != "" {
      SplitJoin(s[1..], sep);
      var rest := Split(s[1..], sep);
      if s[0] == sep {
        assert Split(s, sep)[1..] == rest;
      } else {
        assert Split(s, sep)[1..] == rest[1..];
      }
    }
  }

  /** The text before and after the first separator; None without one. */
  function Cut(s: string, sep: char): (r: Option<(string, string)>)
    ensures r == None <==> sep !in s
    ensures r.Some? ==> s == r.value.0 + [sep] + r.value.1 && sep !in r.value.0
  {
    if s == "" then None
    else if s[0] == sep then Some(("", s[1..]))
    else
      var rest := Cut(s[1..], sep);
      if rest == None then None else Some(([s[0]] + rest.value.0, rest.value.1))
  }

  predicate Contains(s: string, part: string) {
    HasPrefix(s, part) || (s != "" && Contains(s[1..], part))
  }

  lemma {:induction false} ContainsExact(s: string, part: string)
    ensures Contains(s, part) <==> exists i :: 0 <= i <= |s| && part <= s[i..]
  {
    if s == "" {
      assert s[0..] == s;
    } else {
      ContainsExact(s[1..], part);
      assert s[0..] == s;
      if exists i :: 0 <= i <= |s[1..]| && part <= s[1..][i..] {
        var i :| 0 <= i <= |s[1..]| && part <= s[1..][i..];
        assert s[i + 1..] == s[1..][i..];
      }
      if i :| 0 < i <= |s| && part <= s[i..] {
        assert s[1..][i - 1..] == s[i..];
      }
    }
  }

  /** What contains some text has its first character. */
  lemma ContainsFirst(s: string, part: string)
    requires part != ""
    ensures Contains(s, part) ==> part[0] in s
  {
    ContainsExact(s, part);
    if i :| 0 <= i <= |s| && part <= s[i..] {
      assert s[i] == part[0];
    }
  }

  function Word(s: string): string {
    if s == "" || IsSpace(s[0]) then "" else [s[0]] + Word(s[1..])
  }

  function AfterWord(s: string): (r: string)
    ensures |r| <= |s|
    ensures s != "" && !IsSpace(s[0]) ==> |r| < |s|
  {
    if s == "" || IsSpace(s[0]) then s else AfterWord(s[1..])
  }

  /** strings.Fields: the words between runs of white space. */
  function Fields(s: string): seq<string>
    decreases |s|
  {
    if s == "" then []
    else if IsSpace(s[0]) then Fields(s[1..])
    else [Word(s)] + Fields(AfterWord(s))
  }

  predicate NoSpace(s: string) {
    forall i :: 0 <= i < |s| ==> !IsSpace(s[i])
  }

  /** A word and white space before the rest. */
  lemma {:induction false} FieldsNext(word: string, space: char, rest: string)
    requires word != "" && NoSpace(word) && IsSpace(space)
    ensures Fields(word + [space] + rest) == [word] + Fields(rest)
    ensures Fields([space] + rest) == Fields(rest) && Fields("") == []
  {
    WordFirst(word, [space] + rest);
    assert word + [space] + rest == word + ([space] + rest);
    assert ([space] + rest)[1..] == rest;
  }

  lemma {:induction false} WordFirst(word: string, after: string)
    requires NoSpace(word) && (after == "" || IsSpace(after[0]))
    ensures Word(word + after) == word && AfterWord(word + after) == after
  {
    if word == "" {
      assert word + after == after;
    } else {
      assert (word + after)[1..] == word[1..] + after;
      WordFirst(word[1..], after);
    }
  }

  /** The last word, without white space after it. */
  lemma FieldsLast(word: string)
    requires word != "" && NoSpace(word)
    ensures Fields(word) == [word]
  {
    WordFirst(word, "");
    assert word + "" == word;
  }

  /** The first value that is not blank, trimmed. */
  function FirstNonEmpty(values: seq<string>): string {
    if values == [] then ""
    else if TrimSpace(values[0]) != "" then TrimSpace(values[0])
    else FirstNonEmpty(values[1..])
  }
}
