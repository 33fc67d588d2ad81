/**
 * `classify_intent`: route a query to "nec", "wattmonk" or "general" by
 * searching the lowercased query for fixed patterns, NEC patterns first.
 *
 * The patterns are raw strings with doubled backslashes, so to the regular
 * expression engine `\\` is a literal backslash and the following letter is
 * a plain letter: `r"\\bnec\\b"` matches the six characters `\bnec\b`, and
 * `\\s*` is a literal backslash followed by any number of the letter `s`.
 * The only constructs left in the patterns are literal text, runs of `s`
 * (`s*`, `s+`) and alternation, which is what the piece language below has.
 */
module Intent {
  import opened PyText

  /** The three answers `classify_intent` can give. */
  datatype Intent = General | Nec | Wattmonk

  /** The literal the API reports for an intent. */
  function IntentName(i: Intent): (s: string)
    ensures s in ["general", "nec", "wattmonk"]
  {
    match i
    case General => "general"
    case Nec => "nec"
    case Wattmonk => "wattmonk"
  }

  /** One element of a pattern: literal text, or a run of at least `min` letters `s` (`s*` is 0, `s+` is 1). */
  datatype Piece = Lit(text: string) | SRun(min: nat)

  /** A pattern is a list of alternatives, each a sequence of pieces. */
  type Pattern = seq<seq<Piece>>

  /** The alternatives of one regular expression. A group `(a|b)` in the middle of a pattern is distributed over the alternatives. */
  const NecPatterns: seq<Pattern> := [
    // r"\\bnec\\b"
    [[Lit("\\bnec\\b")]],
    // r"national\\s+electrical\\s+code"
    [[Lit("national\\"), SRun(1), Lit("electrical\\"), SRun(1), Lit("code")]],
    // r"nfpa\\s*70"
    [[Lit("nfpa\\"), SRun(0), Lit("70")]],
    // r"code\\s*(article|section|table|c)\\b"
    [[Lit("code\\"), SRun(0), Lit("article\\b")],
     [Lit("code\\"), SRun(0), Lit("section\\b")],
     [Lit("code\\"), SRun(0), Lit("table\\b")],
     [Lit("code\\"), SRun(0), Lit("c\\b")]]
  ]

  const WattmonkPatterns: seq<Pattern> := [
    // r"\\bwattmonk\\b"
    [[Lit("\\bwattmonk\\b")]],
    // r"permit|plan\\s*set|turnaround|sla|pricing|cad|as\\s*built"
    [[Lit("permit")],
     [Lit("plan\\"), SRun(0), Lit("set")],
     [Lit("turnaround")],
     [Lit("sla")],
     [Lit("pricing")],
     [Lit("cad")],
     [Lit("as\\"), SRun(0), Lit("built")]]
  ]

  /** The pieces match `q` starting at position `j` (what follows the match is free). */
  predicate MatchAt(q: string, j: nat, pieces: seq<Piece>)
    requires j <= |q|
    decreases |q| - j, |pieces|
  {
    if pieces == [] then true
    else match pieces[0]
      case Lit(l) => StartsAt(q, j, l) && MatchAt(q, j + |l|, pieces[1..])
      case SRun(m) =>
        if m > 0 then j < |q| && q[j] == 's' && MatchAt(q, j + 1, [SRun(m - 1)] + pieces[1..])
        else MatchAt(q, j, pieces[1..]) || (j < |q| && q[j] == 's' && MatchAt(q, j + 1, pieces))
  }

  /** `re.search(pattern, q)` succeeds: some alternative matches at some position. */
  predicate Search(q: string, pat: Pattern) {
    exists a, j | 0 <= a < |pat| && 0 <= j <= |q| :: MatchAt(q, j, pat[a])
  }

  /** The `for pat in patterns: if re.search(pat, q)` loop finds a match. */
  predicate AnySearch(q: string, pats: seq<Pattern>)
    decreases |pats|
  {
    |pats| > 0 && (Search(q, pats[0]) || AnySearch(q, pats[1..]))
  }

  /** `classify_intent(query)` */
  function Classify(query: string): (r: Intent)
    ensures r == Nec <==> AnySearch(Lower(query), NecPatterns)
    ensures r == General ==> !AnySearch(Lower(query), WattmonkPatterns)
  {
    var q := Lower(query);
    if AnySearch(q, NecPatterns) then Nec
    else if AnySearch(q, WattmonkPatterns) then Wattmonk
    else General
  }

  // ---------------------------------------------------------------------------
  // Properties

  /** The loop finds a match exactly when one of the patterns matches. */
  lemma {:induction false} AnySearchIff(q: string, pats: seq<Pattern>)
    ensures AnySearch(q, pats) <==> exists i | 0 <= i < |pats| :: Search(q, pats[i])
    decreases |pats|
  {
    if |pats| > 0 {
      AnySearchIff(q, pats[1..]);
      assert forall i | 1 <= i < |pats| :: pats[i] == pats[1..][i - 1];
    }
  }

  /**
   * NEC patterns are tried first: any NEC match gives "nec", a "wattmonk"
   * answer means no NEC pattern matched, and "general" means no pattern of
   * either list matched.
   */
  lemma ClassifyCases(query: string)
    ensures var q := Lower(query);
      && (Classify(query) == Nec <==> exists i | 0 <= i < |NecPatterns| :: Search(q, NecPatterns[i]))
      && (Classify(query) == Wattmonk <==>
            (forall i | 0 <= i < |NecPatterns| :: !Search(q, NecPatterns[i]))
            && exists i | 0 <= i < |WattmonkPatterns| :: Search(q, WattmonkPatterns[i]))
      && (Classify(query) == General <==>
            (forall i | 0 <= i < |NecPatterns| :: !Search(q, NecPatterns[i]))
            && (forall i | 0 <= i < |WattmonkPatterns| :: !Search(q, WattmonkPatterns[i])))
  {
    AnySearchIff(Lower(query), NecPatterns);
    AnySearchIff(Lower(query), WattmonkPatterns);
  }

  /** The query is lowercased first, so it makes no difference whether the caller lowercased it already. */
  lemma ClassifyIgnoresCase(query: string)
    ensures Classify(query) == Classify(Lower(query))
  {
    LowerIdempotent(query);
  }

  /** A match that starts with literal text has that text at its start. */
  lemma LitFirst(q: string, j: nat, l: string, rest: seq<Piece>)
    requires j <= |q| && MatchAt(q, j, [Lit(l)] + rest)
    ensures StartsAt(q, j, l)
  {
    assert ([Lit(l)] + rest)[0] == Lit(l);
  }

  /** Text containing a backslash can only occur in a query containing one. */
  lemma BackslashIn(q: string, j: nat, l: string, k: nat)
    requires StartsAt(q, j, l) && k < |l| && l[k] == '\\'
    ensures '\\' in q
  {
    assert q[j + k] == q[j..j + |l|][k];
  }

  /** Lowercasing neither adds nor removes backslashes. */
  lemma LowerBackslash(s: string)
    ensures '\\' in Lower(s) <==> '\\' in s
  {
    if '\\' in Lower(s) {
      var k :| 0 <= k < |s| && Lower(s)[k] == '\\';
      assert s[k] == '\\';
    }
    if '\\' in s {
      var k :| 0 <= k < |s| && s[k] == '\\';
      assert Lower(s)[k] == '\\';
    }
  }

  /** Every NEC alternative starts with text containing a backslash, so a NEC match needs a backslash in the query. */
  lemma NecNeedsBackslash(q: string, i: nat)
    requires i < |NecPatterns| && Search(q, NecPatterns[i])
    ensures '\\' in q
  {
    var a, j :| 0 <= a < |NecPatterns[i]| && 0 <= j <= |q| && MatchAt(q, j, NecPatterns[i][a]);
    var alt := NecPatterns[i][a];
    var l := alt[0].text;
    assert alt == [Lit(l)] + alt[1..];
    LitFirst(q, j, l, alt[1..]);
    var k := if i == 0 then 0 else |l| - 1;
    BackslashIn(q, j, l, k);
  }

  /** Because of the doubled backslashes, a query without a backslash is never classified "nec". */
  lemma NoBackslashNeverNec(query: string)
    requires '\\' !in query
    ensures Classify(query) != Nec
  {
    LowerBackslash(query);
    ClassifyCases(query);
    if Classify(query) == Nec {
      var i :| 0 <= i < |NecPatterns| && Search(Lower(query), NecPatterns[i]);
      NecNeedsBackslash(Lower(query), i);
    }
  }

  /** A query containing "permit", "turnaround", "sla", "pricing" or "cad" is "wattmonk" unless a NEC pattern matched. */
  lemma WattmonkWord(query: string, w: string)
    requires w in ["permit", "turnaround", "sla", "pricing", "cad"]
    requires Contains(Lower(query), w)
    ensures Classify(query) == Nec || Classify(query) == Wattmonk
  {
    var q := Lower(query);
    var j :| 0 <= j <= |q| - |w| && StartsAt(q, j, w);
    var a := if w == "permit" then 0 else if w == "turnaround" then 2 else if w == "sla" then 3
             else if w == "pricing" then 4 else 5;
    var alt := WattmonkPatterns[1][a];
    assert alt == [Lit(w)];
    assert MatchAt(q, j + |w|, alt[1..]);
    assert MatchAt(q, j, alt);
    assert Search(q, WattmonkPatterns[1]);
    ClassifyCases(query);
  }

  /** Without a backslash and without any of the five plain words, no pattern matches and the answer is "general". */
  lemma PlainQueryIsGeneral(query: string)
    requires '\\' !in query
    requires forall w | w in ["permit", "turnaround", "sla", "pricing", "cad"] :: !Contains(Lower(query), w)
    ensures Classify(query) == General
  {
    var q := Lower(query);
    LowerBackslash(query);
    ClassifyCases(query);
    NoBackslashNeverNec(query);
    forall i | 0 <= i < |WattmonkPatterns| ensures !Search(q, WattmonkPatterns[i]) {
      if Search(q, WattmonkPatterns[i]) {
        var a, j :| 0 <= a < |WattmonkPatterns[i]| && 0 <= j <= |q| && MatchAt(q, j, WattmonkPatterns[i][a]);
        var alt := WattmonkPatterns[i][a];
        var l := alt[0].text;
        assert alt == [Lit(l)] + alt[1..];
        LitFirst(q, j, l, alt[1..]);
        if i == 0 {
          BackslashIn(q, j, l, 0);
        } else if a == 1 || a == 6 {
          BackslashIn(q, j, l, |l| - 1);
        } else {
          assert Contains(q, l);
        }
      }
    }
  }

  /** A word whose first letter does not occur in `s` does not occur in `s`. */
  lemma FirstLetterAbsent(s: string, w: string)
    requires w != [] && w[0] !in s
    ensures !Contains(s, w)
  {
  }

  lemma NoCad()
    ensures !Contains("nec 310.15", "cad")
  {
    var q := "nec 310.15";
    forall i | 0 <= i <= |q| - 3 ensures !StartsAt(q, i, "cad") {
      assert q[i..i + 3][0] == q[i] && q[i..i + 3][1] == q[i + 1];
      assert q[i] != 'c' || q[i + 1] != 'a';
    }
  }

  /** A string without capitals is its own lowercase. */
  lemma LowerOfLower(s: string)
    requires forall k | 0 <= k < |s| :: !('A' <= s[k] <= 'Z')
    ensures Lower(s) == s
  {
  }

  /** A plain NEC reference such as "nec 310.15" has no backslash, so it is "general". */
  lemma PlainNecReferenceIsGeneral()
    ensures Classify("nec 310.15") == General
  {
    var q := "nec 310.15";
    LowerOfLower(q);
    FirstLetterAbsent(q, "permit");
    FirstLetterAbsent(q, "turnaround");
    FirstLetterAbsent(q, "sla");
    FirstLetterAbsent(q, "pricing");
    NoCad();
    PlainQueryIsGeneral(q);
  }

  /** "translate" contains "sla", so it is routed to Wattmonk. */
  lemma TranslateIsWattmonk()
    ensures Classify("translate") == Wattmonk
  {
    assert Lower("translate") == "translate";
    assert StartsAt("translate", 4, "sla");
    WattmonkWord("translate", "sla");
    NoBackslashNeverNec("translate");
  }

  /** The literal text `\bnec\b` in a query is what the first NEC pattern matches. */
  lemma LiteralNecIsNec(query: string, j: nat)
    requires StartsAt(Lower(query), j, "\\bnec\\b")
    ensures Classify(query) == Nec
  {
    var q := Lower(query);
    var alt := NecPatterns[0][0];
    assert MatchAt(q, j + 7, alt[1..]);
    assert MatchAt(q, j, alt);
    assert Search(q, NecPatterns[0]);
    ClassifyCases(query);
  }
}
