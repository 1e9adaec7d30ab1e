/**
 * The page-name codec of the card box plugin: a page title is turned into the
 * name of its file under `pages/` by a fixed chain of replace-all calls, and
 * a file name is turned back into a title by the inverse chain.
 *
 * Strings are `seq<char>`; one `char` stands for one UTF-16 code unit that
 * is not half of a surrogate pair.
 */
module NameCodec {

  /** `s.replace(/pat/g, rep)` for a literal pattern: a left-to-right scan that
      replaces every non-overlapping occurrence of `pat`. */
  function ReplaceAll(s: string, pat: string, rep: string): (r: string)
    requires |pat| > 0
    decreases |s|
  {
    if |s| == 0 then []
    else if pat <= s then rep + ReplaceAll(s[|pat|..], pat, rep)
    else [s[0]] + ReplaceAll(s[1..], pat, rep)
  }

  /** The characters a Windows file name may not hold, in the order the chain
      replaces them, and the text each becomes. */
  const Targets: seq<char> := ['<', '>', ':', '"', '/', '\\', '|', '?', '*']
  const Codes: seq<string> := ["%3C", "%3E", "%3A", "%22", "___", "%5C", "%7C", "%3F", "%2A"]

  /** Applies replacements `i`, `i+1`, ... of the encoding chain, in order. */
  function EncodeFrom(s: string, i: nat): string
    requires i <= |Targets|
    decreases |Targets| - i
  {
    if i == |Targets| then s
    else EncodeFrom(ReplaceAll(s, [Targets[i]], Codes[i]), i + 1)
  }

  /** Applies replacements `i`, `i+1`, ... of the decoding chain, in order. */
  function DecodeFrom(s: string, i: nat): string
    requires i <= |Codes|
    decreases |Codes| - i
  {
    if i == |Codes| then s
    else DecodeFrom(ReplaceAll(s, Codes[i], [Targets[i]]), i + 1)
  }

  /** encodeLogseqFileName: the empty title gives the empty name, otherwise the
      nine replace-all calls run in table order. */
  function Encode(name: string): string
  {
    if name == [] then [] else EncodeFrom(name, 0)
  }

  /** decodeLogseqFileName: the nine inverse replace-all calls, in table order. */
  function Decode(name: string): string
  {
    if name == [] then [] else DecodeFrom(name, 0)
  }

  // ---------------------------------------------------------------------------
  // Reference definition: encoding as a per-character substitution.

  function EncodeChar(c: char): (r: string)
    ensures |r| > 0
  {
    if c in Targets then Codes[IndexOf(c)] else [c]
  }

  function IndexOf(c: char): (i: nat)
    requires c in Targets
    ensures i < |Targets| && Targets[i] == c
    ensures forall j :: 0 <= j < i ==> Targets[j] != c
  {
    if c == '<' then 0 else if c == '>' then 1 else if c == ':' then 2
    else if c == '"' then 3 else if c == '/' then 4 else if c == '\\' then 5
    else if c == '|' then 6 else if c == '?' then 7 else 8
  }

  /** Every character replaced independently by its code. */
  function Substitute(s: string): string
  {
    if s == [] then [] else EncodeChar(s[0]) + Substitute(s[1..])
  }

  /** A character after the replacements of table rows `lo .. hi-1` have been
      applied to it: it is encoded exactly when it is the target of such a row. */
  function Piece(c: char, lo: nat, hi: nat): (r: string)
  {
    if c in Targets && lo <= IndexOf(c) < hi then Codes[IndexOf(c)] else [c]
  }

  function Mixed(s: string, lo: nat, hi: nat): string
  {
    if s == [] then [] else Piece(s[0], lo, hi) + Mixed(s[1..], lo, hi)
  }

  /** `p` cannot start or contain an occurrence of `pat` that differs from `p`
      itself, whatever text follows it. */
  predicate Isolated(p: string, pat: string)
    requires |pat| > 0
  {
    p == pat ||
    ((forall i :: 1 <= i < |p| ==> p[i] != pat[0]) &&
     (|p| > 0 && p[0] == pat[0] ==> |pat| <= |p| && p[..|pat|] != pat))
  }

  lemma {:induction false} ReplaceAllSkip(a: string, b: string, pat: string, rep: string)
    requires |pat| > 0
    requires forall i :: 0 <= i < |a| ==> a[i] != pat[0]
    ensures ReplaceAll(a + b, pat, rep) == a + ReplaceAll(b, pat, rep)
  {
    if a != [] {
      assert (a + b)[0] == a[0] != pat[0];
      assert !(pat <= a + b);
      assert (a + b)[1..] == a[1..] + b;
      ReplaceAllSkip(a[1..], b, pat, rep);
      assert a == [a[0]] + a[1..];
    } else {
      assert a + b == b;
    }
  }

  lemma ReplaceAllPiece(p: string, b: string, pat: string, rep: string)
    requires |pat| > 0 && Isolated(p, pat)
    ensures ReplaceAll(p + b, pat, rep) == (if p == pat then rep else p) + ReplaceAll(b, pat, rep)
  {
    if p == pat {
      assert (p + b)[|pat|..] == b;
    } else if p != [] && p[0] == pat[0] {
      assert (p + b)[..|pat|] == p[..|pat|];
      assert (p + b)[1..] == p[1..] + b;
      ReplaceAllSkip(p[1..], b, pat, rep);
    } else {
      ReplaceAllSkip(p, b, pat, rep);
    }
  }

  /** Facts about the table, checked row by row: the targets are distinct, no
      code holds a target, and every code starts with `%` or `_` and holds no
      other code's first character after that. */
  lemma TableFacts()
    ensures |Targets| == |Codes| == 9
    ensures forall i, j :: 0 <= i < j < 9 ==> Targets[i] != Targets[j] && Codes[i] != Codes[j]
    ensures forall j :: 0 <= j < 9 ==> |Codes[j]| == 3 && (Codes[j][0] == '%' || Codes[j][0] == '_')
    ensures forall j, k :: 0 <= j < 9 && 0 <= k < 3 ==> Codes[j][k] !in Targets
    ensures forall j, k, i :: 0 <= j < 9 && 1 <= k < 3 && 0 <= i < 9 && i != j ==> Codes[j][k] != Codes[i][0]
    ensures '%' !in Targets && '_' !in Targets
  {
    TargetsDistinct();
    CodesDistinct();
    CodesAvoidTargets();
    CodeTails();
  }

  lemma TargetsDistinct()
    ensures forall i, j :: 0 <= i < j < 9 ==> Targets[i] != Targets[j]
    ensures '%' !in Targets && '_' !in Targets
  {
  }

  lemma CodesDistinct()
    ensures forall j :: 0 <= j < 9 ==> |Codes[j]| == 3 && (Codes[j][0] == '%' || Codes[j][0] == '_')
    ensures forall i, j :: 0 <= i < j < 9 ==> Codes[i] != Codes[j]
  {
    CodeChars();
  }

  lemma CodesAvoidTargets()
    ensures forall j, k :: 0 <= j < 9 && 0 <= k < 3 ==> Codes[j][k] !in Targets
  {
    CodeChars();
  }

  lemma CodeTails()
    ensures forall j, k, i :: 0 <= j < 9 && 1 <= k < 3 && 0 <= i < 9 && i != j ==> Codes[j][k] != Codes[i][0]
  {
    CodeChars();
  }

  lemma CodeChars()
    ensures Codes == ["%3C", "%3E", "%3A", "%22", "___", "%5C", "%7C", "%3F", "%2A"]
    ensures forall j, k :: 0 <= j < 9 && 0 <= k < 3 ==> Codes[j][k] in "%_3CEA257F"
    ensures forall j, k :: 0 <= j < 9 && 1 <= k < 3 && j != 4 ==> Codes[j][k] in "3CEA257F"
  {
  }

  lemma {:induction false} EncodeStep(s: string, i: nat)
    requires i < |Targets|
    ensures ReplaceAll(Mixed(s, 0, i), [Targets[i]], Codes[i]) == Mixed(s, 0, i + 1)
  {
    if s != [] {
      TableFacts();
      var c, p := s[0], Piece(s[0], 0, i);
      var pat := [Targets[i]];
      assert Isolated(p, pat) by {
        if c in Targets && IndexOf(c) < i {
          assert p == Codes[IndexOf(c)];
        }
      }
      ReplaceAllPiece(p, Mixed(s[1..], 0, i), pat, Codes[i]);
      EncodeStep(s[1..], i);
      assert (if p == pat then Codes[i] else p) == Piece(c, 0, i + 1);
    }
  }

  lemma {:induction false} DecodeStep(s: string, k: nat)
    requires k < |Codes|
    requires '%' !in s && '_' !in s
    ensures ReplaceAll(Mixed(s, k, 9), Codes[k], [Targets[k]]) == Mixed(s, k + 1, 9)
  {
    if s != [] {
      TableFacts();
      var c, p := s[0], Piece(s[0], k, 9);
      assert c == s[0] && c != '%' && c != '_';
      assert Isolated(p, Codes[k]) by {
        if c in Targets && k <= IndexOf(c) {
          assert p == Codes[IndexOf(c)];
        } else {
          assert p == [c];
        }
      }
      ReplaceAllPiece(p, Mixed(s[1..], k, 9), Codes[k], [Targets[k]]);
      DecodeStep(s[1..], k);
      assert (if p == Codes[k] then [Targets[k]] else p) == Piece(c, k + 1, 9);
    }
  }

  lemma {:induction false} EncodeFromMixed(s: string, i: nat)
    requires i <= |Targets|
    ensures EncodeFrom(Mixed(s, 0, i), i) == Mixed(s, 0, 9)
    decreases |Targets| - i
  {
    if i < |Targets| {
      EncodeStep(s, i);
      EncodeFromMixed(s, i + 1);
    }
  }

  lemma {:induction false} DecodeFromMixed(s: string, k: nat)
    requires k <= |Codes|
    requires '%' !in s && '_' !in s
    ensures DecodeFrom(Mixed(s, k, 9), k) == Mixed(s, 9, 9)
    decreases |Codes| - k
  {
    if k < |Codes| {
      DecodeStep(s, k);
      DecodeFromMixed(s, k + 1);
    }
  }

  lemma {:induction false} MixedEnds(s: string)
    ensures Mixed(s, 0, 0) == s && Mixed(s, 9, 9) == s
    ensures Mixed(s, 0, 9) == Substitute(s)
  {
    if s != [] {
      MixedEnds(s[1..]);
      assert s == [s[0]] + s[1..];
    }
  }

  /** The chain of replace-all calls is a per-character substitution: since no
      code holds a later target, no replacement rewrites an earlier one's output. */
  lemma EncodeIsSubstitution(name: string)
    ensures Encode(name) == Substitute(name)
  {
    MixedEnds(name);
    EncodeFromMixed(name, 0);
  }

  /** An encoded name holds none of the characters a Windows file name forbids. */
  lemma {:induction false} SubstituteAvoidsTargets(s: string)
    ensures forall c :: c in Substitute(s) ==> c !in Targets
  {
    if s != [] {
      TableFacts();
      SubstituteAvoidsTargets(s[1..]);
      assert forall c :: c in EncodeChar(s[0]) ==> c !in Targets by {
        if s[0] in Targets {
          var j := IndexOf(s[0]);
          assert forall k :: 0 <= k < 3 ==> Codes[j][k] !in Targets;
        }
      }
    }
  }

  lemma EncodeAvoidsTargets(name: string)
    ensures forall c :: c in Encode(name) ==> c !in Targets
    ensures name == [] <==> Encode(name) == []
  {
    EncodeIsSubstitution(name);
    SubstituteAvoidsTargets(name);
    if name != [] {
      assert Substitute(name) == EncodeChar(name[0]) + Substitute(name[1..]);
    }
  }

  /** Round trip for every title holding no `%` and no `_`: then the only `%`
      and `_` in the file name are those the encoder wrote. */
  lemma DecodeEncode(title: string)
    requires '%' !in title && '_' !in title
    ensures Decode(Encode(title)) == title
  {
    EncodeAvoidsTargets(title);
    if title != [] {
      MixedEnds(title);
      EncodeFromMixed(title, 0);
      DecodeFromMixed(title, 0);
    }
  }

  lemma ReplaceAllAbsent(s: string, pat: string, rep: string)
    requires |pat| > 0 && pat[0] !in s
    ensures ReplaceAll(s, pat, rep) == s
  {
    ReplaceAllSkip(s, [], pat, rep);
    assert s + [] == s;
  }

  /** On a name without `%` only the `___` row of the decoding chain acts. */
  lemma {:induction false} DecodeFromWithoutPercent(s: string, k: nat)
    requires k <= |Codes| && '%' !in s
    ensures DecodeFrom(s, k) == if k <= 4 then ReplaceAll(s, "___", "/") else s
    decreases |Codes| - k
  {
    if k < |Codes| {
      if k == 4 {
        var t := ReplaceAll(s, "___", "/");
        assert '%' !in t by { ReplaceAllKeepsAbsent(s, "___", "/", '%'); }
        DecodeFromWithoutPercent(t, 5);
      } else {
        assert Codes[k][0] == '%' by {
          assert Codes[0] == "%3C" && Codes[1] == "%3E" && Codes[2] == "%3A";
          assert Codes[3] == "%22" && Codes[5] == "%5C";
          assert Codes[6] == "%7C" && Codes[7] == "%3F" && Codes[8] == "%2A";
        }
        ReplaceAllAbsent(s, Codes[k], [Targets[k]]);
        DecodeFromWithoutPercent(s, k + 1);
      }
    }
  }

  lemma {:induction false} ReplaceAllKeepsAbsent(s: string, pat: string, rep: string, c: char)
    requires |pat| > 0 && c !in s && c !in rep
    ensures c !in ReplaceAll(s, pat, rep)
    decreases |s|
  {
    if |s| > 0 {
      if pat <= s {
        ReplaceAllKeepsAbsent(s[|pat|..], pat, rep, c);
      } else {
        ReplaceAllKeepsAbsent(s[1..], pat, rep, c);
      }
    }
  }

  /** The round trip fails once titles may hold `_`: "_/" and "/_" share the
      file name "____", and decoding reads its first three underscores as the
      slash. */
  lemma EncodeNotInjective()
    ensures Encode("_/") == "____" && Encode("/_") == "____"
    ensures Decode(Encode("_/")) == "/_"
  {
    EncodeSlashUnderscore();
    DecodeFromWithoutPercent("____", 0);
    assert ReplaceAll("____", "___", "/") == "/_" by {
      assert "___" <= "____" && "____"[3..] == "_";
      assert !("___" <= "_") && "_"[1..] == [];
    }
  }

  lemma EncodeSlashUnderscore()
    ensures Encode("_/") == "____" && Encode("/_") == "____"
  {
    EncodeIsSubstitution("_/");
    EncodeIsSubstitution("/_");
    assert EncodeChar('_') == "_";
    assert EncodeChar('/') == "___" by { assert IndexOf('/') == 4; }
    assert Substitute("_/") == "____" by {
      assert "_/"[1..] == "/" && "/"[1..] == [];
    }
    assert Substitute("/_") == "____" by {
      assert "/_"[1..] == "_" && "_"[1..] == [];
    }
  }
}
