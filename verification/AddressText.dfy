/** How addresses print, and a reader of that text that follows section 2.2 of RFC 4291. */
module AddressText {
  import opened Bytes
  import Codec

  // ---- numerals ----------------------------------------------------------------------------

  function Digit(d: nat): char
    requires d < 16
  {
    if d < 10 then '0' + d as char else 'a' + (d - 10) as char
  }

  /** `v` in the given base, lower case, without leading zeros. */
  function Numeral(v: nat, base: nat): (s: string)
    requires 2 <= base <= 16
    ensures s != ""
  {
    if v < base then [Digit(v)]
    else
      DivBasics(v, base);
      Smaller(v, base);
      Numeral(v / base, base) + [Digit(v % base)]
  }

  lemma Smaller(v: nat, base: nat)
    requires base >= 2 && v >= base
    ensures v / base < v
  {
    DivBasics(v, base);
    if v / base >= v {
      MulMonotone(v, v / base, base);
    }
  }

  function DigitValue(c: char): Option<nat>
  {
    if '0' <= c <= '9' then Some(c as int - '0' as int)
    else if 'a' <= c <= 'f' then Some(c as int - 'a' as int + 10)
    else if 'A' <= c <= 'F' then Some(c as int - 'A' as int + 10)
    else None
  }

  lemma DigitRoundTrip(v: nat)
    requires v < 16
    ensures DigitValue(Digit(v)) == Some(v)
  {
  }

  function ReadNumeral(s: string, base: nat): Option<nat>
  {
    if s == "" then None
    else
      var n := |s| - 1;
      match DigitValue(s[n])
      case None => None
      case Some(d) =>
        if d >= base then None
        else if n == 0 then Some(d)
        else match ReadNumeral(s[..n], base) case None => None case Some(v) => Some(v * base + d)
  }

  lemma ReadSnoc(s: string, base: nat, v: nat, d: nat)
    requires d < base <= 16 && s != "" && ReadNumeral(s, base) == Some(v)
    ensures ReadNumeral(s + [Digit(d)], base) == Some(v * base + d)
  {
    DigitRoundTrip(d);
    assert (s + [Digit(d)])[..|s|] == s;
  }

  lemma {:induction false} NumeralRoundTrip(v: nat, base: nat)
    requires 2 <= base <= 16
    ensures ReadNumeral(Numeral(v, base), base) == Some(v)
  {
    if v < base {
      DigitRoundTrip(v);
    } else {
      DivBasics(v, base);
      Smaller(v, base);
      NumeralRoundTrip(v / base, base);
      ReadSnoc(Numeral(v / base, base), base, v / base, v % base);
    }
  }

  function Power(base: nat, n: nat): nat
  {
    if n == 0 then 1 else Power(base, n - 1) * base
  }

  lemma {:induction false} NumeralWidth(v: nat, base: nat, width: nat)
    requires 2 <= base <= 16 && width > 0 && v < Power(base, width)
    ensures |Numeral(v, base)| <= width
  {
    if v >= base {
      DivBasics(v, base);
      Smaller(v, base);
      if v / base >= Power(base, width - 1) {
        MulMonotone(Power(base, width - 1), v / base, base);
      }
      NumeralWidth(v / base, base, width - 1);
    }
  }

  /** A 16-bit group takes at most four hexadecimal digits, a 16-bit port five decimal ones. */
  lemma WordWidth(v: nat)
    requires v < 65536
    ensures |Numeral(v, 16)| <= 4 && |Numeral(v, 10)| <= 5
  {
    assert Power(16, 4) == 65536 && Power(10, 5) == 100000;
    NumeralWidth(v, 16, 4);
    NumeralWidth(v, 10, 5);
  }

  // ---- colon-separated numerals ------------------------------------------------------------

  function Joined(g: seq<nat>, base: nat): string
    requires 2 <= base <= 16
  {
    if g == [] then "" else
      var n := |g| - 1;
      (if n == 0 then "" else Joined(g[..n], base) + ":") + Numeral(g[n], base)
  }

  lemma JoinedSnoc(g: seq<nat>, v: nat, base: nat)
    requires 2 <= base <= 16
    ensures Joined(g + [v], base) == (if g == [] then "" else Joined(g, base) + ":") + Numeral(v, base)
  {
    assert (g + [v])[..|g|] == g;
  }

  predicate NoBracket(s: string)
  {
    forall i :: 0 <= i < |s| ==> s[i] != ']'
  }

  predicate NoColon(s: string)
  {
    forall i :: 0 <= i < |s| ==> s[i] != ':'
  }

  lemma {:induction false} NumeralNoColon(v: nat, base: nat)
    requires 2 <= base <= 16
    ensures NoColon(Numeral(v, base)) && NoBracket(Numeral(v, base))
  {
    if v >= base {
      DivBasics(v, base);
      Smaller(v, base);
      NumeralNoColon(v / base, base);
    }
  }

  /** Decimal or lower-case hexadecimal digits, the first of them no zero unless the number is. */
  lemma {:induction false} NumeralDigits(v: nat, base: nat)
    requires 2 <= base <= 16
    ensures forall i :: 0 <= i < |Numeral(v, base)| ==>
              '0' <= Numeral(v, base)[i] <= '9' || (base > 10 && 'a' <= Numeral(v, base)[i] <= 'f')
    ensures Numeral(v, base)[0] == '0' <==> v == 0
  {
    if v >= base {
      DivBasics(v, base);
      Smaller(v, base);
      QuotientPositive(v, base);
      NumeralDigits(v / base, base);
    }
  }

  lemma QuotientPositive(v: nat, base: nat)
    requires 0 < base <= v
    ensures v / base > 0
  {
    DivBasics(v, base);
  }

  function Split(s: string): (r: seq<string>)
    ensures r != []
  {
    if s == "" then [""] else
      var n := |s| - 1;
      var r := Split(s[..n]);
      if s[n] == ':' then r + [""] else r[..|r| - 1] + [r[|r| - 1] + [s[n]]]
  }

  lemma {:induction false} SplitToken(tok: string)
    requires NoColon(tok)
    ensures Split(tok) == [tok]
  {
    if tok != "" {
      var n := |tok| - 1;
      SplitToken(tok[..n]);
      assert tok == tok[..n] + [tok[n]];
    }
  }

  lemma {:induction false} SplitColon(s: string, tok: string)
    requires NoColon(tok)
    ensures Split(s + ":" + tok) == Split(s) + [tok]
  {
    var t := s + ":" + tok;
    if tok == "" {
      assert t[..|t| - 1] == s;
    } else {
      assert t[..|t| - 1] == s + ":" + tok[..|tok| - 1];
      var n := |tok| - 1;
      SplitColon(s, tok[..n]);
      assert tok == tok[..n] + [tok[n]];
      var r := Split(s) + [tok[..n]];
      assert r[..|r| - 1] == Split(s);
    }
  }

  /** Every token read as a numeral of at most `width` digits. */
  function ReadAll(toks: seq<string>, base: nat, width: nat): Option<seq<nat>>
  {
    if toks == [] then Some([]) else
      var n := |toks| - 1;
      if |toks[n]| > width then None
      else match ReadNumeral(toks[n], base)
        case None => None
        case Some(v) => match ReadAll(toks[..n], base, width) case None => None case Some(g) => Some(g + [v])
  }

  predicate Fits(g: seq<nat>, base: nat, width: nat)
    requires 2 <= base <= 16
  {
    forall i :: 0 <= i < |g| ==> |Numeral(g[i], base)| <= width
  }

  lemma ReadAllSnoc(toks: seq<string>, g: seq<nat>, v: nat, base: nat, width: nat)
    requires 2 <= base <= 16 && |Numeral(v, base)| <= width && ReadAll(toks, base, width) == Some(g)
    ensures ReadAll(toks + [Numeral(v, base)], base, width) == Some(g + [v])
  {
    NumeralRoundTrip(v, base);
    assert (toks + [Numeral(v, base)])[..|toks|] == toks;
  }

  lemma {:induction false} JoinedRoundTrip(g: seq<nat>, base: nat, width: nat)
    requires 2 <= base <= 16 && g != [] && Fits(g, base, width)
    ensures ReadAll(Split(Joined(g, base)), base, width) == Some(g)
  {
    var n := |g| - 1;
    var tok := Numeral(g[n], base);
    NumeralNoColon(g[n], base);
    assert g == g[..n] + [g[n]];
    if n == 0 {
      SplitToken(tok);
      ReadAllSnoc([], [], g[n], base, width);
      assert [] + [tok] == [tok] && [] + [g[n]] == g;
    } else {
      var front := Joined(g[..n], base);
      JoinedRoundTrip(g[..n], base, width);
      SplitColon(front, tok);
      ReadAllSnoc(Split(front), g[..n], g[n], base, width);
    }
  }

  // ---- IPv6 --------------------------------------------------------------------------------

  /** Index of the first zero group, or the length. */
  function FirstZero(g: seq<nat>): (z: nat)
    ensures z <= |g| && (z < |g| ==> g[z] == 0)
    ensures forall i :: 0 <= i < z ==> g[i] != 0
  {
    if g == [] || g[0] == 0 then 0 else 1 + FirstZero(g[1..])
  }

  /** End of the run of zeros that starts at `z`. */
  function RunEnd(g: seq<nat>, z: nat): (e: nat)
    requires z <= |g|
    ensures z <= e <= |g| && (e < |g| ==> g[e] != 0)
    ensures forall i :: z <= i < e ==> g[i] == 0
    decreases |g| - z
  {
    if z < |g| && g[z] == 0 then RunEnd(g, z + 1) else z
  }

  function Hex(g: seq<nat>): string
  {
    Joined(g, 16)
  }

  /** The groups in hexadecimal with the first run of zeros elided. */
  function Compressed(g: seq<nat>): string
  {
    var z := FirstZero(g);
    if z == |g| then Hex(g) else Hex(g[..z]) + "::" + Hex(g[RunEnd(g, z)..])
  }

  function Text6(g: seq<nat>, port: nat): string
  {
    "[" + Compressed(g) + "]:" + Numeral(port, 10)
  }

  type Groups = g: seq<nat> | |g| == 8 && forall i :: 0 <= i < 8 ==> g[i] < 65536
    witness [0, 0, 0, 0, 0, 0, 0, 0]

  function Word(hi: byte, lo: byte): nat
  {
    hi * 256 + lo
  }

  /** The eight groups of sixteen address bytes in network order. */
  function GroupsOf(b: seq<byte>): (g: Groups)
    requires |b| == 16
  {
    seq(8, i requires 0 <= i < 8 => Word(b[2 * i], b[2 * i + 1]))
  }

  /** The 16-bit word the host loads from the address bytes, cast from big-endian. */
  lemma LoadedGroup(b: seq<byte>, i: nat)
    requires |b| == 16 && i < 8
    ensures Codec.EndianCast(Codec.FromLE([b[2 * i], b[2 * i + 1]]), 2, false) == GroupsOf(b)[i]
    ensures Codec.FromLE([b[2 * i], b[2 * i + 1]]) == 0 <==> GroupsOf(b)[i] == 0
  {
    var x, y := b[2 * i], b[2 * i + 1];
    WordOf(x, y);
    Codec.ToFromLE([x, y]);
    assert Codec.Reverse([x, y]) == [y, x] by {
      assert [x, y][1..] == [y] && [y][1..] == [];
    }
    WordOf(y, x);
  }

  lemma WordOf(x: byte, y: byte)
    ensures Codec.FromLE([x, y]) == x + 256 * y
  {
    assert [x, y][1..] == [y] && [y][1..] == [];
    assert Codec.FromLE([y]) == y + 256 * Codec.FromLE([]);
  }

  /** What the printing loop holds before it looks at group `i`. */
  function Printed(g: seq<nat>, i: nat, usedZero: bool): string
    requires i <= |g|
  {
    var z := FirstZero(g);
    if i <= z then Hex(g[..i])
    else if !usedZero then Hex(g[..z])
    else Hex(g[..z]) + "::" + (if RunEnd(g, z) <= i then Hex(g[RunEnd(g, z)..i]) else "")
  }

  predicate UsedZero(g: seq<nat>, i: nat, usedZero: bool)
  {
    usedZero <==> FirstZero(g) < |g| && RunEnd(g, FirstZero(g)) < i
  }

  lemma HexSnoc(g: seq<nat>, lo: nat, i: nat)
    requires lo <= i < |g|
    ensures Hex(g[lo..i + 1]) == (if lo == i then "" else Hex(g[lo..i]) + ":") + Numeral(g[i], 16)
  {
    assert g[lo..i + 1] == g[lo..i] + [g[i]];
    JoinedSnoc(g[lo..i], g[i], 16);
  }

  /** A zero group before any elision is skipped. */
  lemma SkipStep(g: seq<nat>, i: nat)
    requires i < |g| && g[i] == 0 && UsedZero(g, i, false)
    ensures UsedZero(g, i + 1, false) && Printed(g, i + 1, false) == Printed(g, i, false)
  {
  }

  /** The text after one more group. */
  function WithGroup(text: string, i: nat, closes: bool, v: nat): string
  {
    var t := if closes then text + ":" else text;
    (if i > 0 then t + ":" else t) + Numeral(v, 16)
  }

  lemma BeforeZeros(g: seq<nat>, i: nat)
    requires i < FirstZero(g)
    ensures Hex(g[..i + 1]) == WithGroup(Hex(g[..i]), i, false, g[i])
  {
    HexSnoc(g, 0, i);
    assert g[0..i] == g[..i] && g[0..i + 1] == g[..i + 1];
  }

  lemma AtRunEnd(text: string, g: seq<nat>, e: nat)
    requires 0 < e < |g|
    ensures text + "::" + Hex(g[e..e + 1]) == WithGroup(text, e, true, g[e])
  {
    HexSnoc(g, e, e);
    assert text + "::" == text + ":" + ":";
  }

  lemma AfterZeros(text: string, g: seq<nat>, e: nat, i: nat)
    requires e < i < |g|
    ensures text + "::" + Hex(g[e..i + 1]) == WithGroup(text + "::" + Hex(g[e..i]), i, false, g[i])
  {
    HexSnoc(g, e, i);
    var h, t := Hex(g[e..i]), Numeral(g[i], 16);
    assert text + "::" + (h + ":" + t) == text + "::" + h + ":" + t;
  }

  /** Any other group prints, after the elision it closes if it is the first past a run of zeros. */
  lemma PrintStep(g: seq<nat>, i: nat, usedZero: bool)
    requires i < |g| && UsedZero(g, i, usedZero) && (g[i] != 0 || usedZero)
    ensures var closes := i > 0 && g[i - 1] == 0 && !usedZero;
            && UsedZero(g, i + 1, usedZero || closes)
            && Printed(g, i + 1, usedZero || closes) == WithGroup(Printed(g, i, usedZero), i, closes, g[i])
  {
    var z := FirstZero(g);
    if i < z {
      BeforeZeros(g, i);
    } else if usedZero {
      AfterZeros(Hex(g[..z]), g, RunEnd(g, z), i);
    } else {
      AtRunEnd(Hex(g[..z]), g, i);
    }
  }

  lemma PrintEnd(g: seq<nat>, usedZero: bool)
    requires g != [] && UsedZero(g, |g|, usedZero)
    ensures var text := Printed(g, |g|, usedZero);
            Compressed(g) == if !usedZero && g[|g| - 1] == 0 then text + "::" else text
  {
    assert g[..|g|] == g && g[|g|..] == [];
  }

  method PrintGroup(text: string, i: nat, closes: bool, shown: nat) returns (out: string)
    ensures out == WithGroup(text, i, closes, shown)
  {
    out := text;
    if closes {
      out := out + ":";
    }
    if i > 0 {
      out := out + ":";
    }
    out := out + Numeral(shown, 16);
  }

  /** A group as it lies in memory, and cast from big-endian for printing. */
  method LoadGroup(b: seq<byte>, i: nat) returns (word: nat, shown: nat)
    requires |b| == 16 && i < 8
    ensures shown == GroupsOf(b)[i] && (word == 0 <==> shown == 0)
  {
    word := Codec.FromLE([b[2 * i], b[2 * i + 1]]);
    shown := Codec.EndianCast(word, 2, false);
    LoadedGroup(b, i);
  }

  method Insert6(b: seq<byte>, port: nat) returns (out: string)
    requires |b| == 16 && port < 65536
    ensures out == Text6(GroupsOf(b), port)
  {
    ghost var g := GroupsOf(b);
    var text := "";
    var usedZero := false;
    var before := 0;
    for i := 0 to 8
      invariant UsedZero(g, i, usedZero)
      invariant text == Printed(g, i, usedZero)
      invariant i > 0 ==> (before == 0 <==> g[i - 1] == 0)
    {
      var word, shown := LoadGroup(b, i);
      if word == 0 && !usedZero {
        SkipStep(g, i);
      } else {
        PrintStep(g, i, usedZero);
        var closes := i > 0 && before == 0 && !usedZero;
        text := PrintGroup(text, i, closes, shown);
        usedZero := usedZero || closes;
      }
      before := word;
    }
    PrintEnd(g, usedZero);
    if !usedZero && before == 0 {
      text := text + "::";
    }
    out := "[" + text + "]:" + Numeral(port, 10);
  }

  // ---- reading the text back ---------------------------------------------------------------

  /** Where the first "::" at or after `from` starts. */
  function FindDouble(s: string, from: nat): Option<nat>
    decreases |s| - from
  {
    if from + 1 >= |s| then None
    else if s[from] == ':' && s[from + 1] == ':' then Some(from)
    else FindDouble(s, from + 1)
  }

  function FindBracket(s: string, from: nat): Option<nat>
    decreases |s| - from
  {
    if from >= |s| then None else if s[from] == ']' then Some(from) else FindBracket(s, from + 1)
  }

  /** Colon-separated groups of one to four hexadecimal digits; none in the empty text. */
  function ReadGroups(s: string): Option<seq<nat>>
  {
    if s == "" then Some([]) else ReadAll(Split(s), 16, 4)
  }

  function ZeroGroups(n: nat): seq<nat>
  {
    if n == 0 then [] else ZeroGroups(n - 1) + [0]
  }

  function Elided(l: Option<seq<nat>>, r: Option<seq<nat>>): Option<seq<nat>>
  {
    if l == None || r == None || |l.value| + |r.value| >= 8 then None
    else Some(l.value + ZeroGroups(8 - |l.value| - |r.value|) + r.value)
  }

  /** Eight groups, of which one "::" may stand for one or more zero groups. */
  function ReadBody(s: string): Option<seq<nat>>
  {
    match FindDouble(s, 0)
    case None => (var g := ReadGroups(s); if g.Some? && |g.value| == 8 then g else None)
    case Some(i) => if i + 2 > |s| then None else Elided(ReadGroups(s[..i]), ReadGroups(s[i + 2..]))
  }

  /** `[` body `]:` port. */
  function ReadText6(s: string): Option<(seq<nat>, nat)>
  {
    match FindBracket(s, 0)
    case None => None
    case Some(k) =>
      if k < 1 || k + 2 > |s| || s[0] != '[' || s[k + 1] != ':' then None
      else match ReadBody(s[1..k])
        case None => None
        case Some(g) => match ReadNumeral(s[k + 2..], 10) case None => None case Some(p) => Some((g, p))
  }

  /** No two colons in a row, and none at either end. */
  predicate Separated(s: string)
  {
    && (s != "" ==> s[|s| - 1] != ':')
    && forall i :: 0 <= i < |s| - 1 ==> s[i] != ':' || s[i + 1] != ':'
  }

  lemma {:induction false} JoinedSeparated(g: seq<nat>, base: nat)
    requires 2 <= base <= 16
    ensures Separated(Joined(g, base)) && NoBracket(Joined(g, base)) && (g != [] ==> Joined(g, base) != "")
  {
    if g != [] {
      var n := |g| - 1;
      JoinedSeparated(g[..n], base);
      NumeralNoColon(g[n], base);
      if n > 0 {
        SeparatedSnoc(Joined(g[..n], base), Numeral(g[n], base));
      }
    }
  }

  lemma SeparatedSnoc(s: string, tok: string)
    requires Separated(s) && s != "" && NoColon(tok) && tok != ""
    ensures Separated(s + ":" + tok)
  {
    var t := s + ":" + tok;
    forall i | 0 <= i < |t| - 1 ensures t[i] != ':' || t[i + 1] != ':' {
      if i < |s| {
        assert t[i] == s[i];
      } else if i > |s| {
        assert t[i] == tok[i - |s| - 1];
      } else {
        assert t[i + 1] == tok[0];
      }
    }
  }

  lemma {:induction false} NoDouble(s: string, from: nat)
    requires Separated(s)
    ensures FindDouble(s, from) == None
    decreases |s| - from
  {
    if from + 1 < |s| {
      NoDouble(s, from + 1);
    }
  }

  lemma {:induction false} FirstDouble(s: string, t: string, from: nat)
    requires Separated(s) && from <= |s|
    ensures FindDouble(s + "::" + t, from) == Some(|s|)
    decreases |s| - from
  {
    var u := s + "::" + t;
    assert u[|s|] == ':' && u[|s| + 1] == ':';
    if from < |s| {
      assert u[from] == s[from];
      assert from + 1 < |s| ==> u[from + 1] == s[from + 1];
      FirstDouble(s, t, from + 1);
    }
  }

  lemma {:induction false} FirstBracket(s: string, t: string, from: nat)
    requires NoBracket(s) && from <= |s|
    ensures FindBracket(s + "]" + t, from) == Some(|s|)
    decreases |s| - from
  {
    var u := s + "]" + t;
    if from < |s| {
      assert u[from] == s[from];
      FirstBracket(s, t, from + 1);
    }
  }

  predicate Words(g: seq<nat>)
  {
    forall i :: 0 <= i < |g| ==> g[i] < 65536
  }

  lemma HexRoundTrip(g: seq<nat>)
    requires Words(g)
    ensures ReadGroups(Hex(g)) == Some(g) && Separated(Hex(g))
  {
    JoinedSeparated(g, 16);
    if g != [] {
      forall i | 0 <= i < |g| ensures |Numeral(g[i], 16)| <= 4 {
        WordWidth(g[i]);
      }
      JoinedRoundTrip(g, 16, 4);
    }
  }

  lemma {:induction false} ZeroGroupsAre(g: seq<nat>)
    requires forall i :: 0 <= i < |g| ==> g[i] == 0
    ensures g == ZeroGroups(|g|)
  {
    if g != [] {
      var n := |g| - 1;
      ZeroGroupsAre(g[..n]);
      assert g == g[..n] + [g[n]];
    }
  }

  /** Reading `a::b` reads both sides. */
  lemma ReadElided(a: string, b: string)
    requires Separated(a)
    ensures ReadBody(a + "::" + b) == Elided(ReadGroups(a), ReadGroups(b))
  {
    var s := a + "::" + b;
    FirstDouble(a, b, 0);
    assert s[..|a|] == a;
    assert s[|a| + 2..] == b;
  }

  lemma ReadWhole(s: string, g: seq<nat>)
    requires Separated(s) && ReadGroups(s) == Some(g) && |g| == 8
    ensures ReadBody(s) == Some(g)
  {
    NoDouble(s, 0);
  }

  lemma Regroup(g: seq<nat>, z: nat, e: nat)
    requires z <= e <= |g| == 8 && z < e && forall i :: z <= i < e ==> g[i] == 0
    ensures Elided(Some(g[..z]), Some(g[e..])) == Some(g)
  {
    ZeroGroupsAre(g[z..e]);
    assert g == g[..z] + g[z..e] + g[e..];
  }

  lemma ElidedRoundTrip(g: Groups, z: nat, e: nat)
    requires z < e <= 8 && forall i :: z <= i < e ==> g[i] == 0
    ensures ReadBody(Hex(g[..z]) + "::" + Hex(g[e..])) == Some(g)
  {
    var a, b := Hex(g[..z]), Hex(g[e..]);
    assert Separated(a) && ReadGroups(a) == Some(g[..z]) by { HexRoundTrip(g[..z]); }
    assert ReadGroups(b) == Some(g[e..]) by { HexRoundTrip(g[e..]); }
    ReadElided(a, b);
    Regroup(g, z, e);
  }

  lemma BodyRoundTrip(g: Groups)
    ensures ReadBody(Compressed(g)) == Some(g)
  {
    var z := FirstZero(g);
    if z == 8 {
      HexRoundTrip(g);
      ReadWhole(Hex(g), g);
    } else {
      ElidedRoundTrip(g, z, RunEnd(g, z));
    }
  }

  lemma CompressedNoBracket(g: seq<nat>)
    ensures NoBracket(Compressed(g))
  {
    var z := FirstZero(g);
    if z == |g| {
      JoinedSeparated(g, 16);
    } else {
      var l, r := Hex(g[..z]), Hex(g[RunEnd(g, z)..]);
      JoinedSeparated(g[..z], 16);
      JoinedSeparated(g[RunEnd(g, z)..], 16);
      NoBracketJoin(l, r);
    }
  }

  lemma NoBracketJoin(l: string, r: string)
    requires NoBracket(l) && NoBracket(r)
    ensures NoBracket(l + "::" + r)
  {
  }

  /** The text has a "::" if and only if some group is zero. */
  lemma ElidedIffZero(g: Groups)
    ensures FindDouble(Compressed(g), 0).Some? <==> exists i :: 0 <= i < 8 && g[i] == 0
  {
    var z := FirstZero(g);
    if z == 8 {
      JoinedSeparated(g, 16);
      NoDouble(Hex(g), 0);
    } else {
      JoinedSeparated(g[..z], 16);
      FirstDouble(Hex(g[..z]), Hex(g[RunEnd(g, z)..]), 0);
    }
  }

  /** Every address and port can be read back from what is printed. */
  lemma Text6RoundTrip(g: Groups, port: nat)
    ensures ReadText6(Text6(g, port)) == Some((g, port))
  {
    var c, p, s := Compressed(g), Numeral(port, 10), Text6(g, port);
    CompressedNoBracket(g);
    FirstBracket("[" + c, ":" + p, 0);
    assert s == "[" + c + "]" + (":" + p);
    var k := |c| + 1;
    assert s[1..k] == c && s[k + 2..] == p;
    BodyRoundTrip(g);
    NumeralRoundTrip(port, 10);
  }

  lemma GroupsInjective(a: seq<byte>, b: seq<byte>)
    requires |a| == 16 && |b| == 16 && GroupsOf(a) == GroupsOf(b)
    ensures a == b
  {
    forall i | 0 <= i < 8 ensures a[2 * i] == b[2 * i] && a[2 * i + 1] == b[2 * i + 1] {
      assert GroupsOf(a)[i] == GroupsOf(b)[i];
      assert Word(a[2 * i], a[2 * i + 1]) == Word(b[2 * i], b[2 * i + 1]);
    }
    forall k | 0 <= k < 16 ensures a[k] == b[k] {
      assert k == 2 * (k / 2) || k == 2 * (k / 2) + 1;
    }
  }

  // ---- IPv4, the registry's key ------------------------------------------------------------

  /** The four octets of a 32-bit address, then the port. */
  function Parts4(addr: nat, port: nat): seq<nat>
  {
    [addr / 16777216 % 256, addr / 65536 % 256, addr / 256 % 256, addr % 256, port]
  }

  function Text4(addr: nat, port: nat): string
  {
    var n := (v: nat) => Numeral(v, 10);
    n(addr / 16777216 % 256) + ":" + n(addr / 65536 % 256) + ":" + n(addr / 256 % 256) + ":" + n(addr % 256)
    + ":" + n(port)
  }

  lemma Joined5(a: nat, b: nat, c: nat, d: nat, e: nat)
    ensures Joined([a, b, c, d, e], 10)
            == Numeral(a, 10) + ":" + Numeral(b, 10) + ":" + Numeral(c, 10) + ":" + Numeral(d, 10) + ":" + Numeral(e, 10)
  {
    assert [a] + [b] == [a, b] && [a, b] + [c] == [a, b, c];
    assert [a, b, c] + [d] == [a, b, c, d] && [a, b, c, d] + [e] == [a, b, c, d, e];
    assert Joined([a], 10) == Numeral(a, 10);
    JoinedSnoc([a], b, 10);
    JoinedSnoc([a, b], c, 10);
    JoinedSnoc([a, b, c], d, 10);
    JoinedSnoc([a, b, c, d], e, 10);
  }

  function ReadText4(s: string): Option<(nat, nat)>
  {
    match ReadAll(Split(s), 10, 5)
    case None => None
    case Some(g) =>
      if |g| != 5 then None else Some((FromParts(g), g[4]))
  }

  function FromParts(g: seq<nat>): nat
    requires |g| == 5
  {
    ((g[0] * 256 + g[1]) * 256 + g[2]) * 256 + g[3]
  }

  lemma Octets(addr: nat, port: nat)
    requires addr < 0x1_0000_0000
    ensures FromParts(Parts4(addr, port)) == addr
  {
    var a, b := addr / 256, addr / 65536;
    assert a / 256 == b && b / 256 == addr / 16777216;
  }

  lemma DecimalRoundTrip(g: seq<nat>)
    requires g != [] && Words(g)
    ensures ReadAll(Split(Joined(g, 10)), 10, 5) == Some(g)
  {
    forall i | 0 <= i < |g| ensures |Numeral(g[i], 10)| <= 5 {
      WordWidth(g[i]);
    }
    JoinedRoundTrip(g, 10, 5);
  }

  lemma Text4IsJoined(addr: nat, port: nat)
    ensures Text4(addr, port) == Joined(Parts4(addr, port), 10)
  {
    Joined5(addr / 16777216 % 256, addr / 65536 % 256, addr / 256 % 256, addr % 256, port);
  }

  lemma ReadParts(g: seq<nat>)
    requires |g| == 5 && Words(g)
    ensures ReadText4(Joined(g, 10)) == Some((FromParts(g), g[4]))
  {
    DecimalRoundTrip(g);
  }

  lemma Text4RoundTrip(addr: nat, port: nat)
    requires addr < 0x1_0000_0000 && port < 65536
    ensures ReadText4(Text4(addr, port)) == Some((addr, port))
  {
    var g := Parts4(addr, port);
    ReadParts(g);
    Text4IsJoined(addr, port);
    Octets(addr, port);
    assert g[4] == port;
  }

  predicate SevenBit(s: string)
  {
    forall i :: 0 <= i < |s| ==> s[i] as int < 128
  }

  lemma {:induction false} NumeralSevenBit(v: nat, base: nat)
    requires 2 <= base <= 16
    ensures SevenBit(Numeral(v, base))
  {
    if v >= base {
      DivBasics(v, base);
      Smaller(v, base);
      NumeralSevenBit(v / base, base);
    }
  }

  lemma {:induction false} JoinedSevenBit(g: seq<nat>, base: nat)
    requires 2 <= base <= 16
    ensures SevenBit(Joined(g, base))
  {
    if g != [] {
      JoinedSevenBit(g[..|g| - 1], base);
      NumeralSevenBit(g[|g| - 1], base);
    }
  }

  lemma Text4IsAscii(addr: nat, port: nat)
    ensures SevenBit(Text4(addr, port))
  {
    Text4IsJoined(addr, port);
    JoinedSevenBit(Parts4(addr, port), 10);
  }

  // ---- all addresses -----------------------------------------------------------------------

  datatype Address = V4(addr: nat, port: nat) | V6(bytes: seq<byte>, port: nat)
  {
    predicate Valid()
    {
      port < 65536 && if V4? then addr < 0x1_0000_0000 else |bytes| == 16
    }

    function Text(): string
      requires Valid()
    {
      if V4? then Text4(addr, port) else Text6(GroupsOf(bytes), port)
    }
  }

  /** Two addresses print alike only when they are the same address. */
  lemma TextInjective(a: Address, b: Address)
    requires a.Valid() && b.Valid() && a.Text() == b.Text()
    ensures a == b
  {
    if a.V4? && b.V4? {
      Text4RoundTrip(a.addr, a.port);
      Text4RoundTrip(b.addr, b.port);
    } else if a.V6? && b.V6? {
      Text6RoundTrip(GroupsOf(a.bytes), a.port);
      Text6RoundTrip(GroupsOf(b.bytes), b.port);
      GroupsInjective(a.bytes, b.bytes);
    } else {
      var x, y := if a.V4? then a else b, if a.V4? then b else a;
      Text4RoundTrip(x.addr, x.port);
      BracketIsNotText4(y.Text());
    }
  }

  lemma BracketIsNotText4(s: string)
    requires s != "" && s[0] == '['
    ensures ReadText4(s) == None
  {
    BracketStaysFirst(s);
    BadFirst(Split(s), 10, 5);
  }

  lemma {:induction false} BracketStaysFirst(s: string)
    requires s != "" && s[0] == '['
    ensures Split(s)[0] != "" && Split(s)[0][0] == '['
  {
    if |s| > 1 {
      BracketStaysFirst(s[..|s| - 1]);
    } else {
      assert s[..0] == "";
    }
  }

  lemma {:induction false} NotANumeral(s: string, base: nat)
    requires s != "" && s[0] == '['
    ensures ReadNumeral(s, base) == None
  {
    if |s| > 1 {
      NotANumeral(s[..|s| - 1], base);
    }
  }

  lemma {:induction false} BadFirst(toks: seq<string>, base: nat, width: nat)
    requires toks != [] && toks[0] != "" && toks[0][0] == '['
    ensures ReadAll(toks, base, width) == None
  {
    if |toks| == 1 {
      NotANumeral(toks[0], base);
    } else {
      BadFirst(toks[..|toks| - 1], base, width);
    }
  }
}
