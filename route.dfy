/**
 * The `/calc/` endpoint: validation of the query parameters by their patterns, the splitting of the
 * comma lists, the bucketing of the recipient's types by locus, and the response built from the
 * calculator's results.
 */
module Route {
  import opened Wrappers
  import opened Text
  import opened Calculator
  import opened Data

  // ---------------------------------------------------------------------------------------------
  // The patterns of the query parameters

  /** `^[ABO]$|^AB$`, within `max_length=2`. */
  function BgValid(bg: string): (r: bool)
    ensures r <==> bg == "A" || bg == "B" || bg == "O" || bg == "AB"
  {
    |bg| <= 2 && ((|bg| == 1 && (bg[0] == 'A' || bg[0] == 'B' || bg[0] == 'O')) || bg == "AB")
  }

  /** `[ABCD]`. */
  predicate IsLead(c: char) {
    c == 'A' || c == 'B' || c == 'C' || c == 'D'
  }

  /** `[QRPW]`. */
  predicate IsSub(c: char) {
    c == 'Q' || c == 'R' || c == 'P' || c == 'W'
  }

  /** `[AB]`. */
  predicate IsAB(c: char) {
    c == 'A' || c == 'B'
  }

  /** The letters of a token: `[ABCD][QRPW]?[AB]?` when `ab` holds, `[ABCD][QRPW]?` otherwise. */
  predicate LettersOk(l: string, ab: bool) {
    && 1 <= |l| <= 3 && IsLead(l[0])
    && (|l| == 2 ==> IsSub(l[1]) || (ab && IsAB(l[1])))
    && (|l| == 3 ==> ab && IsSub(l[1]) && IsAB(l[2]))
  }

  /** A token of a list pattern: its letters followed by one to `maxDigits` digits. */
  predicate IsToken(t: string, maxDigits: nat, ab: bool) {
    exists k :: 0 < k < |t| && LettersOk(t[..k], ab) && AllDigits(t[k..]) && |t[k..]| <= maxDigits
  }

  /** One repetition of the list group: a token and whether a comma follows it. */
  datatype Piece = Piece(token: string, comma: bool)

  /** The text a sequence of pieces spells. */
  function Render(ps: seq<Piece>): string {
    if ps == [] then "" else ps[0].token + (if ps[0].comma then "," else "") + Render(ps[1..])
  }

  predicate AllTokens(ps: seq<Piece>, maxDigits: nat, ab: bool) {
    forall i :: 0 <= i < |ps| ==> IsToken(ps[i].token, maxDigits, ab)
  }

  /** The length of the letters of a token at the start of `s`, read greedily; 0 when none starts there. */
  function LetterPart(s: string, ab: bool): (n: nat)
    ensures n <= |s|
    ensures n > 0 ==> LettersOk(s[..n], ab)
  {
    if |s| == 0 || !IsLead(s[0]) then 0
    else
      var k := if |s| > 1 && IsSub(s[1]) then 2 else 1;
      if ab && |s| > k && IsAB(s[k]) then k + 1 else k
  }

  /** The length of the run of digits at the start of `s`. */
  function LeadingDigits(s: string): (n: nat)
    ensures n <= |s|
    ensures forall i :: 0 <= i < n ==> IsDigit(s[i])
    ensures n < |s| ==> !IsDigit(s[n])
  {
    if s != [] && IsDigit(s[0]) then 1 + LeadingDigits(s[1..]) else 0
  }

  /**
   * One repetition of the list group at the start of `s`, read left to right: the piece and where the
   * rest begins. Reading greedily decides the pattern: letters, digits and the comma are disjoint
   * classes, and a token ends where its digits do.
   */
  function Head(s: string, maxDigits: nat, ab: bool): (r: Option<(Piece, nat)>)
    ensures r.Some? ==> 0 < r.value.1 <= |s| && IsToken(r.value.0.token, maxDigits, ab)
    ensures r.Some? ==> s == r.value.0.token + (if r.value.0.comma then "," else "") + s[r.value.1..]
  {
    var k := LetterPart(s, ab);
    var d := LeadingDigits(s[k..]);
    if k == 0 || d == 0 || d > maxDigits then None
    else
      var n := k + d;
      var comma := n < |s| && s[n] == ',';
      var next := if comma then n + 1 else n;
      ReadPiece(s, k, d, maxDigits, ab, comma, next);
      Some((Piece(s[..n], comma), next))
  }

  /** The token read at the start of `s`, with the comma after it if there is one. */
  lemma ReadPiece(s: string, k: nat, d: nat, maxDigits: nat, ab: bool, comma: bool, next: nat)
    requires 0 < k && 0 < d <= maxDigits && k + d <= |s| && LettersOk(s[..k], ab)
    requires forall i :: 0 <= i < d ==> IsDigit(s[k..][i])
    requires comma == (k + d < |s| && s[k + d] == ',') && next == (if comma then k + d + 1 else k + d)
    ensures 0 < next <= |s| && IsToken(s[..k + d], maxDigits, ab)
    ensures s == s[..k + d] + (if comma then "," else "") + s[next..]
  {
    ReadToken(s, k, d, maxDigits, ab);
    SpellsPiece(s, k + d, comma);
  }

  /** Letters followed by a run of one to `maxDigits` digits make a token. */
  lemma ReadToken(s: string, k: nat, d: nat, maxDigits: nat, ab: bool)
    requires 0 < k && 0 < d <= maxDigits && k + d <= |s| && LettersOk(s[..k], ab)
    requires forall i :: 0 <= i < d ==> IsDigit(s[k..][i])
    ensures IsToken(s[..k + d], maxDigits, ab)
  {
    var t := s[..k + d];
    assert t[..k] == s[..k];
    forall i | 0 <= i < |t[k..]| ensures IsDigit(t[k..][i]) {
      assert t[k..][i] == s[k..][i];
    }
  }

  /** The text is the token, the comma if there is one, and the rest. */
  lemma SpellsPiece(s: string, n: nat, comma: bool)
    requires n <= |s| && (comma ==> n < |s| && s[n] == ',')
    ensures s == s[..n] + (if comma then "," else "") + s[(if comma then n + 1 else n)..]
  {
    if comma {
      assert s == s[..n] + [s[n]] + s[n + 1..];
    } else {
      assert s == s[..n] + s[n..];
    }
  }

  /** Matching `^(T,?)+$` for the token pattern T: the pieces read one after another to the end. */
  function Parse(s: string, maxDigits: nat, ab: bool): Option<seq<Piece>>
    decreases |s|
  {
    match Head(s, maxDigits, ab)
    case None => None
    case Some((piece, next)) =>
      if next == |s| then Some([piece])
      else
        match Parse(s[next..], maxDigits, ab)
        case None => None
        case Some(ps) => Some([piece] + ps)
  }

  /** What `Parse` reads is a non-empty sequence of tokens that spells the input. */
  lemma {:induction false} ParseSound(s: string, maxDigits: nat, ab: bool)
    requires Parse(s, maxDigits, ab).Some?
    ensures var ps := Parse(s, maxDigits, ab).value;
            |ps| >= 1 && AllTokens(ps, maxDigits, ab) && Render(ps) == s
    decreases |s|
  {
    var (piece, next) := Head(s, maxDigits, ab).value;
    var ps := Parse(s, maxDigits, ab).value;
    if next == |s| {
      assert ps == [piece];
      assert Render(ps) == piece.token + (if piece.comma then "," else "") + Render([]);
    } else {
      ParseSound(s[next..], maxDigits, ab);
      var rest := Parse(s[next..], maxDigits, ab).value;
      assert ps == [piece] + rest;
      assert ps[1..] == rest;
    }
  }

  /** A run of `m` digits followed by something that is not a digit is read to its end. */
  lemma {:induction false} LeadingDigitsOfRun(x: string, m: nat)
    requires m <= |x| && (forall i :: 0 <= i < m ==> IsDigit(x[i])) && (m == |x| || !IsDigit(x[m]))
    ensures LeadingDigits(x) == m
  {
    if m > 0 {
      assert IsDigit(x[0]);
      LeadingDigitsOfRun(x[1..], m - 1);
    }
  }

  /** A token at the start of `s`, followed by something that is not a digit, is read exactly. */
  lemma TokenIsRead(t: string, s: string, maxDigits: nat, ab: bool)
    requires IsToken(t, maxDigits, ab)
    requires |t| <= |s| && s[..|t|] == t && (|s| == |t| || !IsDigit(s[|t|]))
    ensures var k := LetterPart(s, ab);
            0 < k < |t| && k + LeadingDigits(s[k..]) == |t| && |t| - k <= maxDigits
  {
    var k :| 0 < k < |t| && LettersOk(t[..k], ab) && AllDigits(t[k..]) && |t[k..]| <= maxDigits;
    assert s[..k] == t[..k];
    assert s[k..|t|] == t[k..];
    assert IsDigit(t[k..][0]);
    LettersThenDigit(s, t[..k], ab);
    DigitRunOfToken(s[k..], t[k..]);
  }

  /** Greedy letter reading stops where the letters of a token stop, when a digit follows them. */
  lemma LettersThenDigit(s: string, l: string, ab: bool)
    requires LettersOk(l, ab) && |l| < |s| && s[..|l|] == l && IsDigit(s[|l|])
    ensures LetterPart(s, ab) == |l|
  {
    assert s[0] == l[0];
    if |l| >= 2 {
      assert s[1] == l[1];
    }
    if |l| == 3 {
      assert s[2] == l[2];
    }
  }

  /** The digits of a token at the start of `x`, followed by no digit, are the leading digit run of `x`. */
  lemma DigitRunOfToken(x: string, digits: string)
    requires AllDigits(digits) && |digits| <= |x| && x[..|digits|] == digits
    requires |x| == |digits| || !IsDigit(x[|digits|])
    ensures LeadingDigits(x) == |digits|
  {
    forall i | 0 <= i < |digits| ensures IsDigit(x[i]) {
      assert x[i] == x[..|digits|][i];
    }
    LeadingDigitsOfRun(x, |digits|);
  }

  /** `Head` where a token's letters and digits are found. */
  lemma HeadAt(s: string, k: nat, d: nat, maxDigits: nat, ab: bool)
    requires k == LetterPart(s, ab) && d == LeadingDigits(s[k..]) && 0 < k && 0 < d <= maxDigits
    ensures var n := k + d;
            var comma := n < |s| && s[n] == ',';
            Head(s, maxDigits, ab) == Some((Piece(s[..n], comma), if comma then n + 1 else n))
  {
  }

  /** A token at the start of `s`, followed by the end, a comma or a leading letter, is read exactly. */
  lemma HeadReadsToken(t: string, s: string, maxDigits: nat, ab: bool)
    requires IsToken(t, maxDigits, ab)
    requires |t| <= |s| && s[..|t|] == t && (|s| == |t| || s[|t|] == ',' || IsLead(s[|t|]))
    ensures var comma := |t| < |s| && s[|t|] == ',';
            Head(s, maxDigits, ab) == Some((Piece(t, comma), if comma then |t| + 1 else |t|))
  {
    TokenIsRead(t, s, maxDigits, ab);
    var k := LetterPart(s, ab);
    var d := LeadingDigits(s[k..]);
    assert k + d == |t|;
    assert s[..k + d] == t;
    HeadAt(s, k, d, maxDigits, ab);
  }

  /** A piece at the start of the text, followed by a token or nothing, is read exactly. */
  lemma HeadReadsPiece(p: Piece, rest: string, maxDigits: nat, ab: bool)
    requires IsToken(p.token, maxDigits, ab)
    requires rest == [] || IsLead(rest[0])
    ensures var c: string := if p.comma then "," else "";
            Head(p.token + c + rest, maxDigits, ab) == Some((p, |p.token| + |c|))
  {
    var t := p.token;
    var c: string := if p.comma then "," else "";
    var s := t + c + rest;
    assert s[..|t|] == t;
    assert |t| < |s| ==> s[|t|] == (if p.comma then ',' else rest[0]);
    HeadReadsToken(t, s, maxDigits, ab);
  }

  /** Every non-empty sequence of tokens is read back from the text it spells. */
  lemma {:induction false} ParseComplete(ps: seq<Piece>, maxDigits: nat, ab: bool)
    requires |ps| >= 1 && AllTokens(ps, maxDigits, ab)
    ensures Parse(Render(ps), maxDigits, ab) == Some(ps)
    decreases |ps|
  {
    var rest := ps[1..];
    assert IsToken(ps[0].token, maxDigits, ab);
    assert [ps[0]] + rest == ps;
    if rest != [] {
      assert AllTokens(rest, maxDigits, ab);
      ParseComplete(rest, maxDigits, ab);
      RenderStartsWithLead(rest, maxDigits, ab);
    }
    ParsePieceThenRest(ps[0], rest, maxDigits, ab);
  }

  /** A token put in front of text that is read back as `rest` is read back as that token and `rest`. */
  lemma ParsePieceThenRest(p: Piece, rest: seq<Piece>, maxDigits: nat, ab: bool)
    requires IsToken(p.token, maxDigits, ab)
    requires rest != [] ==> Parse(Render(rest), maxDigits, ab) == Some(rest) && |Render(rest)| > 0 && IsLead(Render(rest)[0])
    ensures Parse(Render([p] + rest), maxDigits, ab) == Some([p] + rest)
  {
    var c: string := if p.comma then "," else "";
    var r := Render(rest);
    var s := Render([p] + rest);
    assert ([p] + rest)[1..] == rest;
    assert s == p.token + c + r;
    if rest == [] {
      assert r == [];
    }
    HeadReadsPiece(p, r, maxDigits, ab);
    var next := |p.token| + |c|;
    assert s[next..] == r;
    if rest != [] {
      ParseCons(s, p, next, rest, maxDigits, ab);
    } else {
      assert next == |s| && [p] + rest == [p];
    }
  }

  /** A piece read at the start, followed by pieces read from the rest. */
  lemma ParseCons(s: string, p: Piece, next: nat, rest: seq<Piece>, maxDigits: nat, ab: bool)
    requires Head(s, maxDigits, ab) == Some((p, next)) && next < |s|
    requires Parse(s[next..], maxDigits, ab) == Some(rest)
    ensures Parse(s, maxDigits, ab) == Some([p] + rest)
  {
  }

  /** The text of non-empty tokens starts with the first token's leading letter. */
  lemma RenderStartsWithLead(ps: seq<Piece>, maxDigits: nat, ab: bool)
    requires |ps| >= 1 && AllTokens(ps, maxDigits, ab)
    ensures |Render(ps)| > 0 && IsLead(Render(ps)[0])
  {
    TokenStartsWithLead(ps[0].token, maxDigits, ab);
    var c: string := if ps[0].comma then "," else "";
    assert Render(ps) == ps[0].token + c + Render(ps[1..]);
    assert Render(ps)[0] == ps[0].token[0];
  }

  lemma TokenStartsWithLead(t: string, maxDigits: nat, ab: bool)
    requires IsToken(t, maxDigits, ab)
    ensures |t| > 0 && IsLead(t[0])
  {
    var k :| 0 < k < |t| && LettersOk(t[..k], ab) && AllDigits(t[k..]) && |t[k..]| <= maxDigits;
    assert t[..k][0] == t[0];
  }

  /** `Parse` decides the pattern: the text is accepted exactly when some tokens spell it. */
  lemma ParseDecidesPattern(s: string, maxDigits: nat, ab: bool)
    ensures Parse(s, maxDigits, ab).Some? <==> exists ps :: |ps| >= 1 && AllTokens(ps, maxDigits, ab) && Render(ps) == s
  {
    if Parse(s, maxDigits, ab).Some? {
      ParseSound(s, maxDigits, ab);
    }
    if ps :| |ps| >= 1 && AllTokens(ps, maxDigits, ab) && Render(ps) == s {
      ParseComplete(ps, maxDigits, ab);
    }
  }

  /** The antibody specificities: `^$|^([ABCD][QRPW]?[AB]?\d{1,4},?)+$`. */
  function SpecsValid(s: string): (r: bool)
    ensures r <==> s == "" || exists ps :: |ps| >= 1 && AllTokens(ps, 4, true) && Render(ps) == s
  {
    ParseDecidesPattern(s, 4, true);
    s == "" || Parse(s, 4, true).Some?
  }

  /** The recipient's HLA types: `^$|^([ABCD][QRPW]?\d{1,3},?)+$`. */
  function RecipHlaValid(s: string): (r: bool)
    ensures r <==> s == "" || exists ps :: |ps| >= 1 && AllTokens(ps, 3, false) && Render(ps) == s
  {
    ParseDecidesPattern(s, 3, false);
    s == "" || Parse(s, 3, false).Some?
  }

  // ---------------------------------------------------------------------------------------------
  // Comma lists

  /** `[] if not s else s.split(",")`, for an absent or present parameter. */
  function CommaList(o: Option<string>): (r: seq<string>)
    ensures r == [] <==> o.None? || o.value == ""
    ensures r != [] ==> Join(r, ',') == o.value
    ensures forall i :: 0 <= i < |r| ==> ',' !in r[i]
  {
    if o.None? || o.value == "" then []
    else
      JoinSplit(o.value, ',');
      Split(o.value, ',')
  }

  function Tokens(ps: seq<Piece>): (r: seq<string>)
    ensures |r| == |ps| && forall i :: 0 <= i < |ps| ==> r[i] == ps[i].token
  {
    seq(|ps|, i requires 0 <= i < |ps| => ps[i].token)
  }

  /** Every piece but the last is followed by a comma. */
  predicate CommaSeparated(ps: seq<Piece>) {
    forall i :: 0 <= i < |ps| - 1 ==> ps[i].comma
  }

  lemma {:induction false} RenderIsJoin(ps: seq<Piece>)
    requires |ps| >= 1 && CommaSeparated(ps)
    ensures Render(ps) == Join(Tokens(ps) + (if ps[|ps| - 1].comma then [""] else []), ',')
  {
    var tail: seq<string> := if ps[|ps| - 1].comma then [""] else [];
    if |ps| == 1 {
      if ps[0].comma {
        assert Tokens(ps) + tail == [ps[0].token, ""];
        assert Render(ps) == ps[0].token + ",";
      } else {
        assert Tokens(ps) + tail == [ps[0].token];
        assert Render(ps) == ps[0].token;
      }
    } else {
      RenderIsJoin(ps[1..]);
      assert ps[1..][|ps[1..]| - 1] == ps[|ps| - 1];
      assert (Tokens(ps) + tail)[1..] == Tokens(ps[1..]) + tail;
    }
  }

  lemma TokenHasNoComma(t: string, maxDigits: nat, ab: bool)
    requires IsToken(t, maxDigits, ab)
    ensures ',' !in t
  {
    var k :| 0 < k < |t| && LettersOk(t[..k], ab) && AllDigits(t[k..]) && |t[k..]| <= maxDigits;
    forall i | 0 <= i < |t| ensures t[i] != ',' {
      if i < k {
        assert t[i] == t[..k][i];
      } else {
        assert t[i] == t[k..][i - k];
      }
    }
  }

  /**
   * Splitting comma-separated tokens gives the tokens back; a trailing comma, which the patterns
   * accept, leaves an empty last piece.
   */
  lemma SplitTokens(ps: seq<Piece>, maxDigits: nat, ab: bool)
    requires |ps| >= 1 && CommaSeparated(ps) && AllTokens(ps, maxDigits, ab)
    ensures CommaList(Some(Render(ps))) == Tokens(ps) + (if ps[|ps| - 1].comma then [""] else [])
  {
    var pieces := Tokens(ps) + (if ps[|ps| - 1].comma then [""] else []);
    forall i | 0 <= i < |pieces| ensures ',' !in pieces[i] {
      if i < |ps| {
        TokenHasNoComma(ps[i].token, maxDigits, ab);
      }
    }
    RenderIsJoin(ps);
    SplitJoin(pieces, ',');
    TokenStartsWithLead(ps[0].token, maxDigits, ab);
  }

  /** A single spec with a trailing comma is accepted and asks for a column with the empty name. */
  lemma TrailingCommaSpec()
    ensures SpecsValid("A1,") && CommaList(Some("A1,")) == ["A1", ""]
  {
    var ps := [Piece("A1", true)];
    assert "A1"[..1] == "A" && "A1"[1..] == "1";
    assert IsToken("A1", 4, true);
    assert Render(ps) == "A1,";
    ParseComplete(ps, 4, true);
    SplitTokens(ps, 4, true);
  }

  // ---------------------------------------------------------------------------------------------
  // The recipient's types by locus

  /** The locus key a recipient type is filed under: "B" for a B type, "DR" for anything else. */
  function Bucket(hla: string): (r: string)
    ensures r == "B" || r == "DR"
    ensures r == "B" <==> |hla| > 0 && hla[0] == 'B'
  {
    if StartsWith(hla, "B") then "B" else "DR"
  }

  /**
   * `buckets` files the types of `hlas`: a key is present exactly when some type is filed under it,
   * and it holds exactly the types filed under it.
   */
  ghost predicate Files(buckets: map<string, set<string>>, hlas: seq<string>) {
    && (forall k :: k in buckets <==> exists h :: h in hlas && Bucket(h) == k)
    && (forall k, h :: k in buckets ==> (h in buckets[k] <==> h in hlas && Bucket(h) == k))
  }

  /** Adding one more type to its bucket files one more type. */
  lemma FilesStep(buckets: map<string, set<string>>, hlas: seq<string>, hla: string)
    requires Files(buckets, hlas)
    ensures var key := Bucket(hla);
            Files(buckets[key := (if key in buckets then buckets[key] else {}) + {hla}], hlas + [hla])
  {
    var key := Bucket(hla);
    var after := buckets[key := (if key in buckets then buckets[key] else {}) + {hla}];
    forall k ensures k in after <==> exists h :: h in hlas + [hla] && Bucket(h) == k {
      FilesStepKey(buckets, hlas, hla, k);
    }
    forall k, h | k in after ensures h in after[k] <==> h in hlas + [hla] && Bucket(h) == k {
      FilesStepType(buckets, hlas, hla, k, h);
    }
  }

  lemma FilesStepKey(buckets: map<string, set<string>>, hlas: seq<string>, hla: string, k: string)
    requires Files(buckets, hlas)
    ensures var key := Bucket(hla);
            var after := buckets[key := (if key in buckets then buckets[key] else {}) + {hla}];
            k in after <==> exists h :: h in hlas + [hla] && Bucket(h) == k
  {
    var more := hlas + [hla];
    if k == Bucket(hla) {
      assert hla in more;
    } else if k in buckets {
      var h :| h in hlas && Bucket(h) == k;
      assert h in more;
    } else {
      forall h | h in more ensures Bucket(h) != k {
        assert h in hlas || h == hla;
      }
    }
  }

  lemma FilesStepType(buckets: map<string, set<string>>, hlas: seq<string>, hla: string, k: string, h: string)
    requires Files(buckets, hlas)
    ensures var key := Bucket(hla);
            var after := buckets[key := (if key in buckets then buckets[key] else {}) + {hla}];
            k in after ==> (h in after[k] <==> h in hlas + [hla] && Bucket(h) == k)
  {
    assert h in hlas + [hla] <==> h in hlas || h == hla;
  }

  /** Types are filed under some key exactly when there are types. */
  lemma FilesEmpty(buckets: map<string, set<string>>, hlas: seq<string>)
    requires Files(buckets, hlas)
    ensures |buckets| == 0 <==> hlas == []
  {
    if hlas != [] {
      assert hlas[0] in hlas;
      assert Bucket(hlas[0]) in buckets;
    } else {
      assert buckets.Keys == {};
    }
  }

  /** The recipient's types by locus key: each key that some type is filed under, with the types filed there. */
  function Buckets(hlas: seq<string>): map<string, set<string>> {
    var keys := set h | h in hlas :: Bucket(h);
    map k | k in keys :: set h | h in hlas && Bucket(h) == k
  }

  /** `Buckets` files the types. */
  lemma BucketsFiles(hlas: seq<string>)
    ensures Files(Buckets(hlas), hlas)
  {
    var m := Buckets(hlas);
    forall k ensures k in m <==> exists h :: h in hlas && Bucket(h) == k {
      if exists h :: h in hlas && Bucket(h) == k {
        var h :| h in hlas && Bucket(h) == k;
        assert k in set h | h in hlas :: Bucket(h);
      }
    }
  }

  /** No other map files them: filing the types determines the map. */
  lemma FilingIsBuckets(buckets: map<string, set<string>>, hlas: seq<string>)
    requires Files(buckets, hlas)
    ensures buckets == Buckets(hlas)
  {
    BucketsFiles(hlas);
    SameFiling(buckets, Buckets(hlas), hlas);
  }

  /** Two maps that file the same types are equal. */
  lemma SameFiling(a: map<string, set<string>>, b: map<string, set<string>>, hlas: seq<string>)
    requires Files(a, hlas) && Files(b, hlas)
    ensures a == b
  {
    forall k ensures k in a <==> k in b {
      assert k in a <==> exists h :: h in hlas && Bucket(h) == k;
    }
    forall k | k in a ensures a[k] == b[k] {
      assert k in b;
      forall h ensures h in a[k] <==> h in b[k] {
        assert h in a[k] <==> h in hlas && Bucket(h) == k;
      }
    }
  }

  /** Filing one more type adds it to its bucket, creating the bucket when it is the first of its locus. */
  lemma BucketsSnoc(hlas: seq<string>, hla: string)
    ensures var key := Bucket(hla);
            Buckets(hlas + [hla]) == Buckets(hlas)[key := (if key in Buckets(hlas) then Buckets(hlas)[key] else {}) + {hla}]
  {
    BucketsFiles(hlas);
    FilesStep(Buckets(hlas), hlas, hla);
    var key := Bucket(hla);
    FilingIsBuckets(Buckets(hlas)[key := (if key in Buckets(hlas) then Buckets(hlas)[key] else {}) + {hla}], hlas + [hla]);
  }

  /** The loop filling the `defaultdict(set)` with each recipient type under its locus key. */
  method BucketRecipHla(hlas: seq<string>) returns (buckets: map<string, set<string>>)
    ensures buckets == Buckets(hlas)
    ensures Files(buckets, hlas)
    ensures |buckets| == 0 <==> hlas == []
  {
    buckets := map[];
    for i := 0 to |hlas|
      invariant buckets == Buckets(hlas[..i])
    {
      var hla := hlas[i];
      var key := Bucket(hla);
      var filed := if key in buckets then buckets[key] else {};
      BucketsSnoc(hlas[..i], hla);
      assert hlas[..i + 1] == hlas[..i] + [hla];
      buckets := buckets[key := filed + {hla}];
    }
    assert hlas[..|hlas|] == hlas;
    BucketsFiles(hlas);
    FilesEmpty(buckets, hlas);
  }

  // ---------------------------------------------------------------------------------------------
  // The endpoint

  /** The query parameters as received; `None` is an absent parameter. */
  datatype Query = Query(bg: Option<string>, specs: Option<string>, donorSet: Option<int>, recipHla: Option<string>)

  /** What the parameter declarations accept: `bg` is required, `donor_set` is 0 or 1 and defaults to 0. */
  predicate QueryValid(q: Query) {
    && q.bg.Some? && BgValid(q.bg.value)
    && (q.specs.Some? ==> SpecsValid(q.specs.value))
    && (q.donorSet.Some? ==> 0 <= q.donorSet.value <= 1)
    && (q.recipHla.Some? ==> RecipHlaValid(q.recipHla.value))
  }

  /** `data.donors[donor_set]`: all donors for 0 (the default), the DPB-typed donors for 1. */
  function DonorSet(data: LoadedData, donorSet: Option<int>): Table {
    if donorSet == Some(1) then data.donors.1 else data.donors.0
  }

  /** A valid query whose specs are all columns of its donor set, which holds donors of its blood group. */
  predicate Admitted(q: Query, data: LoadedData) {
    && QueryValid(q)
    && Missing(CommaList(q.specs), DonorSet(data, q.donorSet).columns) == []
    && SameGroup(DonorSet(data, q.donorSet).rows, q.bg.value) != []
  }

  /** The donors of the query's blood group in its donor set without an antigen it lists. */
  function Compatible(q: Query, data: LoadedData): seq<Donor>
    requires q.bg.Some?
  {
    SplitDonors(SameGroup(DonorSet(data, q.donorSet).rows, q.bg.value), CommaList(q.specs)).0
  }

  /** The B and DR types of the compatible donors can be read: there are none, or both loci's columns exist. */
  predicate TypesReadable(q: Query, data: LoadedData)
    requires q.bg.Some?
  {
    || Compatible(q, data) == []
    || (&& "B" in data.mantigens && Missing(data.mantigens["B"], DonorSet(data, q.donorSet).columns) == []
        && "DR" in data.mantigens && Missing(data.mantigens["DR"], DonorSet(data, q.donorSet).columns) == [])
  }

  /** How many compatible donors the favourable rule accepts against the recipient's types. */
  function FavourableFor(q: Query, data: LoadedData): nat
    requires q.bg.Some?
  {
    |FavourableDonors(Compatible(q, data), LocusColumns(data.mantigens, LocusB), LocusColumns(data.mantigens, LocusDR),
                      Buckets(CommaList(q.recipHla)), data.antigenDefaults)|
  }

  /** A calculator built from a valid query computes, in the query's own terms, what reading types and counting give. */
  lemma CalculatorAgrees(q: Query, data: LoadedData, c: Calculator)
    requires QueryValid(q) && c.Valid()
    requires c.columns == DonorSet(data, q.donorSet).columns && c.specs == CommaList(q.specs)
    requires c.donors == SameGroup(DonorSet(data, q.donorSet).rows, q.bg.value)
    requires c.hlaBdr == data.mantigens && c.recipientBdr == Buckets(CommaList(q.recipHla))
    requires c.agDefaults == data.antigenDefaults
    ensures |c.recipientBdr| == 0 <==> CommaList(q.recipHla) == []
    ensures c.GetDonorTypes().Err? <==> !TypesReadable(q, data)
    ensures |c.recipientBdr| > 0 && TypesReadable(q, data) ==> c.GetFavourableCount() == Ok(Some(FavourableFor(q, data)))
  {
    BucketsFiles(CommaList(q.recipHla));
    FilesEmpty(c.recipientBdr, CommaList(q.recipHla));
    assert c.compatibleDonors == Compatible(q, data);
  }

  /** The response body. */
  datatype CalcBody = CalcBody(bg: string, specs: seq<string>, results: Results, total: nat, recipHla: Option<string>)

  /** A rejected query (422), an exception raised while calculating (500), or the body (200). */
  datatype Response = Unprocessable | ServerError(error: CalcError) | Success(body: CalcBody)

  /**
   * `calc`: the query is validated, the lists split and the recipient's types filed by locus; the
   * calculator then works on the chosen donor set. The response echoes the blood group, the split
   * specs, the size of the donor set and the recipient's types as sent.
   */
  method Calc(q: Query, data: LoadedData) returns (resp: Response)
    ensures resp == Unprocessable <==> !QueryValid(q)
    ensures QueryValid(q) && Missing(CommaList(q.specs), DonorSet(data, q.donorSet).columns) != [] ==>
              resp == ServerError(MissingColumns(Missing(CommaList(q.specs), DonorSet(data, q.donorSet).columns)))
    ensures QueryValid(q) && Missing(CommaList(q.specs), DonorSet(data, q.donorSet).columns) == []
            && SameGroup(DonorSet(data, q.donorSet).rows, q.bg.value) == [] ==>
              resp == ServerError(NoDonors)
    ensures resp.Success? ==>
              && resp.body.bg == q.bg.value && resp.body.specs == CommaList(q.specs)
              && resp.body.total == |DonorSet(data, q.donorSet).rows| && resp.body.recipHla == q.recipHla
    ensures resp.Success? ==>
              var group := SameGroup(DonorSet(data, q.donorSet).rows, q.bg.value);
              var split := SplitDonors(group, CommaList(q.specs));
              resp.body.results.crf == Ratio(|split.1|, |group|) && resp.body.results.available == |split.0|
    ensures resp.Success? ==>
              && (resp.body.results.favourable.None? <==> CommaList(q.recipHla) == [])
              && (resp.body.results.matchability.None? <==> CommaList(q.recipHla) == [])
    ensures resp.Success? && resp.body.results.favourable.Some? ==>
              resp.body.results.favourable.value <= resp.body.results.available
    ensures QueryValid(q) && Missing(CommaList(q.specs), DonorSet(data, q.donorSet).columns) == []
            && SameGroup(DonorSet(data, q.donorSet).rows, q.bg.value) != [] && CommaList(q.recipHla) == [] ==>
              resp.Success? && resp.body.results.favourable.None? && resp.body.results.matchability.None?
    ensures resp.Success? && CommaList(q.recipHla) != [] ==>
              && resp.body.results.favourable == Some(FavourableFor(q, data))
              && q.bg.value in data.mbands
              && resp.body.results.matchability == Matchability(data.mbands[q.bg.value], FavourableFor(q, data))
    ensures Admitted(q, data) && CommaList(q.recipHla) != [] ==>
              (resp.Success? <==> && TypesReadable(q, data) && q.bg.value in data.mbands
                                  && Matchability(data.mbands[q.bg.value], FavourableFor(q, data)).Some?)
    ensures Admitted(q, data) && CommaList(q.recipHla) != [] && !TypesReadable(q, data) ==>
              resp.ServerError? && (resp.error.MissingKey? || resp.error.MissingColumns?)
    ensures Admitted(q, data) && CommaList(q.recipHla) != [] && TypesReadable(q, data) && q.bg.value !in data.mbands ==>
              resp == ServerError(MissingKey(q.bg.value))
    ensures Admitted(q, data) && CommaList(q.recipHla) != [] && TypesReadable(q, data) && q.bg.value in data.mbands
            && Matchability(data.mbands[q.bg.value], FavourableFor(q, data)).None? ==>
              resp == ServerError(NoBand(FavourableFor(q, data)))
  {
    if !QueryValid(q) {
      return Unprocessable;
    }
    var bg := q.bg.value;
    var donors := DonorSet(data, q.donorSet);
    var total := |donors.rows|;
    var recipHlaList := CommaList(q.recipHla);
    var recipHlaDict := BucketRecipHla(recipHlaList);
    var specs := CommaList(q.specs);
    var missing := Missing(specs, donors.columns);
    if missing != [] {
      return ServerError(MissingColumns(missing));
    }
    var calculator := new Calculator(donors, specs, bg, recipHlaDict, data.mantigens, data.antigenDefaults, data.mbands);
    CalculatorAgrees(q, data, calculator);
    var results := calculator.Calculate();
    match results
    case Err(e) =>
      resp := ServerError(e);
    case Ok(r) =>
      resp := Success(CalcBody(bg, specs, r, total, q.recipHla));
  }
}
