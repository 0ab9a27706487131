/** Text and arithmetic the components share: ASCII lower-casing, splitting, rounding up. */
module Texts {
  function LowerChar(c: char): char {
    if 'A' <= c <= 'Z' then (c as int - 'A' as int + 'a' as int) as char else c
  }

  /** `toLowerCase`, on ASCII letters. */
  function ToLowerCase(s: string): string {
    seq(|s|, i requires 0 <= i < |s| => LowerChar(s[i]))
  }

  predicate IsHex(c: char) { '0' <= c <= '9' || 'a' <= c <= 'f' || 'A' <= c <= 'F' }

  predicate AllHex(s: string) { forall i :: 0 <= i < |s| ==> IsHex(s[i]) }

  /** Eight, four, four, four and twelve hexadecimal digits between dashes, in either case. */
  predicate IsUuid(s: string) {
    && |s| == 36 && s[8] == '-' && s[13] == '-' && s[18] == '-' && s[23] == '-'
    && AllHex(s[..8]) && AllHex(s[9..13]) && AllHex(s[14..18]) && AllHex(s[19..23]) && AllHex(s[24..])
  }

  /** Dashes at their four places, and hexadecimal digits at the other 32. */
  lemma UuidShape(s: string)
    ensures IsUuid(s) <==>
              |s| == 36
              && forall i :: 0 <= i < 36 ==>
                   if i == 8 || i == 13 || i == 18 || i == 23 then s[i] == '-'
                   else '0' <= s[i] <= '9' || 'a' <= s[i] <= 'f' || 'A' <= s[i] <= 'F'
  {
    if |s| == 36 {
      assert forall i :: 0 <= i < 8 ==> s[i] == s[..8][i];
      assert forall i :: 9 <= i < 13 ==> s[i] == s[9..13][i - 9];
      assert forall i :: 14 <= i < 18 ==> s[i] == s[14..18][i - 14];
      assert forall i :: 19 <= i < 23 ==> s[i] == s[19..23][i - 19];
      assert forall i :: 24 <= i < 36 ==> s[i] == s[24..][i - 24];
    }
  }

  /** A letter of A to Z gives the one 32 places on, which is one of a to z, and any other character itself. */
  lemma LowerCaseMeans(s: string)
    ensures |ToLowerCase(s)| == |s|
    ensures forall i :: 0 <= i < |s| ==>
              ToLowerCase(s)[i] as int == if 'A' <= s[i] <= 'Z' then s[i] as int + 32 else s[i] as int
  {
  }

  predicate Lacks(s: string, c: char) { forall i :: 0 <= i < |s| ==> s[i] != c }

  /** The pieces between separators, one more than there are separators. */
  function Split(s: string, separator: char): (pieces: seq<string>)
    ensures pieces != []
  {
    if s == "" then [""]
    else if s[0] == separator then [""] + Split(s[1..], separator)
    else
      var rest := Split(s[1..], separator);
      [[s[0]] + rest[0]] + rest[1..]
  }

  lemma {:induction false} SplitPieces(s: string, separator: char)
    ensures forall p :: p in Split(s, separator) ==> Lacks(p, separator)
  {
    if s != "" {
      SplitPieces(s[1..], separator);
      var rest := Split(s[1..], separator);
      assert rest[0] in rest && forall i :: 0 <= i < |rest[1..]| ==> rest[1..][i] in rest;
    }
  }

  lemma {:induction false} SplitOne(piece: string, separator: char)
    requires Lacks(piece, separator)
    ensures Split(piece, separator) == [piece]
  {
    if piece != "" {
      SplitOne(piece[1..], separator);
      assert [piece[0]] + piece[1..] == piece;
    }
  }

  lemma SplitCons(s: string, separator: char)
    requires s != ""
    ensures var rest := Split(s[1..], separator);
            Split(s, separator) == (if s[0] == separator then [""] + rest else [[s[0]] + rest[0]] + rest[1..])
  {
  }

  /** Splitting at one separator splits both sides of it. */
  lemma {:induction false} SplitConcat(a: string, b: string, separator: char)
    ensures Split(a + [separator] + b, separator) == Split(a, separator) + Split(b, separator)
  {
    var whole := a + [separator] + b;
    if a == "" {
      assert whole[0] == separator && whole[1..] == b;
    } else {
      SplitConcat(a[1..], b, separator);
      assert whole[0] == a[0] && whole[1..] == a[1..] + [separator] + b;
      SplitCons(whole, separator);
      SplitCons(a, separator);
    }
  }

  lemma {:induction false} SplitOfTwo(s: string, separator: char)
    requires |Split(s, separator)| == 2
    ensures s == Split(s, separator)[0] + [separator] + Split(s, separator)[1]
  {
    SplitCons(s, separator);
    if s[0] == separator {
      SplitOfOne(s[1..], separator);
    } else {
      SplitOfTwo(s[1..], separator);
    }
  }

  lemma {:induction false} SplitOfOne(s: string, separator: char)
    requires |Split(s, separator)| == 1
    ensures Split(s, separator) == [s]
  {
    if s != "" {
      SplitCons(s, separator);
      SplitOfOne(s[1..], separator);
      assert [s[0]] + s[1..] == s;
    }
  }

  /** The source's `Math.ceil(a / b)`; `/` here rounds down. */
  function CeilDiv(a: int, b: int): int
    requires b > 0
  {
    -((-a) / b)
  }
}
