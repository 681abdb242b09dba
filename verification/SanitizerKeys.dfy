/**
 * Which keys are sensitive, on the text of the key: those that spell one of the listed parts, in any letter case
 * and with anything that is neither letter nor digit in between; and that their values, and only theirs, are redacted.
 */
module SanitizerKeys {
  import opened Wrappers
  import opened SanitizerModel

  predicate LetterOrDigit(c: char) { c in UPPER_CASE || c in LOWER_CASE || c in DIGITS }

  /** The key spells `part` with its letters at these places, nothing but separators between them. */
  ghost predicate Spells(key: string, part: string, at: seq<nat>) {
    && |at| == |part|
    && (forall j | 0 <= j < |at| :: at[j] < |key| && IsOrCapitalizes(key[at[j]], part[j]))
    && (forall j | 0 < j < |at| :: at[j - 1] < at[j] && SeparatorsBetween(key, at[j - 1] + 1, at[j]))
  }

  ghost predicate SeparatorsBetween(key: string, from: nat, to: nat) {
    to <= |key| && forall k | from <= k < to :: !LetterOrDigit(key[k])
  }

  ghost predicate SpellsAPart(key: string) {
    exists part, at: seq<nat> ::
      && part in {"authorization", "password", "passphrase", "secret", "privatekey", "signingprivatekey",
                  "accesstoken", "refreshtoken", "idtoken", "token", "ucan", "credential", "apikey", "keyring",
                  "teamkeyring", "deviceprivatekey"}
      && Spells(key, part, at)
  }

  predicate LowerCase(part: string) { forall j | 0 <= j < |part| :: 'a' <= part[j] <= 'z' }

  lemma CapitalIff(c: char)
    ensures c in UPPER_CASE <==> 'A' <= c <= 'Z'
  {
    CapitalLetters();
    if 'A' <= c <= 'Z' { assert c == UPPER_CASE[c as int - 'A' as int]; }
  }

  lemma SmallIff(c: char)
    ensures c in LOWER_CASE <==> 'a' <= c <= 'z'
  {
    CapitalLetters();
    if 'a' <= c <= 'z' { assert c == LOWER_CASE[c as int - 'a' as int]; }
  }

  lemma DigitIff(c: char)
    ensures c in DIGITS <==> '0' <= c <= '9'
  {
    CapitalLetters();
    if '0' <= c <= '9' { assert c == DIGITS[c as int - '0' as int]; }
  }

  lemma LettersAreAlphanumeric(c: char)
    ensures LetterOrDigit(c) <==> Alphanumeric(c)
  {
    CapitalIff(c);
    SmallIff(c);
    DigitIff(c);
  }

  lemma LetterIsNormal(c: char, lower: char)
    requires 'a' <= lower <= 'z'
    ensures IsOrCapitalizes(c, lower) <==> Alphanumeric(c) && Normalize([c])[0] == lower
  {
    CapitalLetters();
    if 'A' <= c <= 'Z' {
      var i := c as int - 'A' as int;
      assert c == UPPER_CASE[i] && LOWER_CASE[i] == c - 'A' + 'a';
    }
    if Alphanumeric(c) { assert Normalize([c])[0] == (if 'A' <= c <= 'Z' then c - 'A' + 'a' else c); }
  }

  lemma NormalizeStep(key: string)
    requires key != ""
    ensures if Alphanumeric(key[0]) then Normalize(key) == [Normalize([key[0]])[0]] + Normalize(key[1..])
            else Normalize(key) == Normalize(key[1..])
    ensures Alphanumeric(key[0]) ==> |Normalize([key[0]])| == 1
  {
    assert Normalize([key[0]][1..]) == "";
  }

  function Shifted(at: seq<nat>, off: nat): (s: seq<nat>)
    ensures |s| == |at| && forall j | 0 <= j < |at| :: s[j] == at[j] + off
  {
    seq(|at|, j requires 0 <= j < |at| => at[j] + off)
  }

  lemma SpellingShifts(key: string, part: string, at: seq<nat>, off: nat)
    requires off <= |key| && Spells(key[off..], part, at)
    ensures Spells(key, part, Shifted(at, off))
  {
    hide IsOrCapitalizes, LetterOrDigit;
    var s := Shifted(at, off);
    forall j | 0 <= j < |s| ensures s[j] < |key| && IsOrCapitalizes(key[s[j]], part[j]) {
      assert key[off..][at[j]] == key[s[j]];
    }
    forall j | 0 < j < |s| ensures s[j - 1] < s[j] && SeparatorsBetween(key, s[j - 1] + 1, s[j]) {
      assert SeparatorsBetween(key[off..], at[j - 1] + 1, at[j]);
      forall k | s[j - 1] + 1 <= k < s[j] ensures !LetterOrDigit(key[k]) {
        assert key[off..][k - off] == key[k];
      }
    }
  }

  /** A key whose normal form begins with the part spells it with nothing but separators before. */
  lemma {:induction false} PrefixIsSpelled(key: string, part: string) returns (at: seq<nat>)
    requires LowerCase(part) && part <= Normalize(key)
    ensures Spells(key, part, at) && (part != "" ==> SeparatorsBetween(key, 0, at[0]))
    decreases |key|
  {
    hide IsOrCapitalizes, LetterOrDigit, Normalize;
    if part == "" {
      at := [];
    } else {
      assert key != "" by { EmptyIsNormal(); }
      NormalizeStep(key);
      LettersAreAlphanumeric(key[0]);
      if Alphanumeric(key[0]) {
        LetterIsNormal(key[0], part[0]);
        assert Normalize(key)[1..] == Normalize(key[1..]);
        var rest := PrefixIsSpelled(key[1..], part[1..]);
        SpellingShifts(key, part[1..], rest, 1);
        at := [0] + Shifted(rest, 1);
        FirstLetterJoins(key, part, rest);
      } else {
        var rest := PrefixIsSpelled(key[1..], part);
        SpellingShifts(key, part, rest, 1);
        at := Shifted(rest, 1);
        SeparatorsShift(key, 0, rest[0]);
      }
    }
  }

  lemma EmptyIsNormal()
    ensures Normalize("") == ""
  {
  }

  lemma FirstLetterJoins(key: string, part: string, rest: seq<nat>)
    requires key != "" && part != "" && IsOrCapitalizes(key[0], part[0])
    requires Spells(key, part[1..], Shifted(rest, 1))
    requires part[1..] != "" ==> |rest| > 0 && SeparatorsBetween(key[1..], 0, rest[0])
    ensures Spells(key, part, [0] + Shifted(rest, 1))
  {
    hide IsOrCapitalizes, SeparatorsBetween;
    var tail := Shifted(rest, 1);
    var at := [0] + tail;
    forall j | 0 <= j < |at| ensures at[j] < |key| && IsOrCapitalizes(key[at[j]], part[j]) {
      if j > 0 { assert at[j] == tail[j - 1] && part[j] == part[1..][j - 1]; }
    }
    forall j | 0 < j < |at| ensures at[j - 1] < at[j] && SeparatorsBetween(key, at[j - 1] + 1, at[j]) {
      assert at[j] == tail[j - 1];
      if j > 1 {
        assert at[j - 1] == tail[j - 2];
      } else {
        SeparatorsShift(key, 0, rest[0]);
      }
    }
  }

  lemma SeparatorsShift(key: string, from: nat, to: nat)
    requires key != ""
    ensures SeparatorsBetween(key[1..], from, to) <==> SeparatorsBetween(key, from + 1, to + 1)
  {
    hide LetterOrDigit;
    if to < |key| {
      assert forall k | from <= k < to :: key[1..][k] == key[k + 1];
      forall k | from + 1 <= k < to + 1 ensures key[k] == key[1..][k - 1] {}
    }
  }

  lemma SpellingUnshifts(key: string, part: string, at: seq<nat>, off: nat) returns (s: seq<nat>)
    requires off <= |key| && Spells(key, part, at) && forall j | 0 <= j < |at| :: at[j] >= off
    ensures at == Shifted(s, off) && Spells(key[off..], part, s)
  {
    hide IsOrCapitalizes, LetterOrDigit;
    s := seq(|at|, j requires 0 <= j < |at| => at[j] - off);
    forall j | 0 <= j < |s| ensures s[j] < |key[off..]| && IsOrCapitalizes(key[off..][s[j]], part[j]) {
      assert key[off..][s[j]] == key[at[j]];
    }
    forall j | 0 < j < |s| ensures s[j - 1] < s[j] && SeparatorsBetween(key[off..], s[j - 1] + 1, s[j]) {
      assert SeparatorsBetween(key, at[j - 1] + 1, at[j]);
      forall k | s[j - 1] + 1 <= k < s[j] ensures !LetterOrDigit(key[off..][k]) {
        assert key[off..][k] == key[k + off];
      }
    }
  }

  lemma {:induction false} PlacesIncrease(key: string, part: string, at: seq<nat>, j: nat)
    requires Spells(key, part, at) && j < |at|
    ensures at[0] + j <= at[j]
  {
    hide IsOrCapitalizes, LetterOrDigit, SeparatorsBetween;
    if j > 0 { PlacesIncrease(key, part, at, j - 1); }
  }

  lemma TailIsSpelled(key: string, part: string, at: seq<nat>)
    requires part != "" && Spells(key, part, at)
    ensures Spells(key, part[1..], at[1..])
  {
    hide IsOrCapitalizes, LetterOrDigit, SeparatorsBetween;
    var tail := at[1..];
    forall j | 0 <= j < |tail| ensures tail[j] < |key| && IsOrCapitalizes(key[tail[j]], part[1..][j]) {
      assert tail[j] == at[j + 1] && part[1..][j] == part[j + 1];
    }
    forall j | 0 < j < |tail| ensures tail[j - 1] < tail[j] && SeparatorsBetween(key, tail[j - 1] + 1, tail[j]) {
      assert tail[j] == at[j + 1] && tail[j - 1] == at[j];
    }
  }

  /** And the other way round. */
  lemma {:induction false} SpelledIsPrefix(key: string, part: string, at: seq<nat>)
    requires LowerCase(part) && Spells(key, part, at) && (part != "" ==> SeparatorsBetween(key, 0, at[0]))
    ensures part <= Normalize(key)
    decreases |key|
  {
    hide IsOrCapitalizes, LetterOrDigit, Normalize;
    if part != "" {
      NormalizeStep(key);
      LettersAreAlphanumeric(key[0]);
      forall j | 0 <= j < |at| ensures at[j] >= at[0] + j { PlacesIncrease(key, part, at, j); }
      if at[0] == 0 {
        LetterIsNormal(key[0], part[0]);
        TailIsSpelled(key, part, at);
        var rest := SpellingUnshifts(key, part[1..], at[1..], 1);
        if |at| > 1 {
          assert SeparatorsBetween(key, at[0] + 1, at[1]) && at[1] == at[1..][0] == rest[0] + 1;
          SeparatorsShift(key, 0, rest[0]);
        }
        SpelledIsPrefix(key[1..], part[1..], rest);
      } else {
        var rest := SpellingUnshifts(key, part, at, 1);
        SeparatorsShift(key, 0, rest[0]);
        assert !LetterOrDigit(key[0]);
        SpelledIsPrefix(key[1..], part, rest);
      }
    }
  }

  lemma {:induction false} NormalSuffix(key: string, i: nat) returns (j: nat)
    requires i <= |Normalize(key)|
    ensures j <= |key| && Normalize(key[j..]) == Normalize(key)[i..]
  {
    hide Alphanumeric;
    if i == 0 {
      j := 0;
      assert key[0..] == key;
    } else if Alphanumeric(key[0]) {
      var k := NormalSuffix(key[1..], i - 1);
      j := k + 1;
      assert key[1..][k..] == key[j..];
    } else {
      var k := NormalSuffix(key[1..], i);
      j := k + 1;
      assert key[1..][k..] == key[j..];
    }
  }

  lemma {:induction false} SuffixIsNormal(key: string, j: nat) returns (i: nat)
    requires j <= |key|
    ensures i <= |Normalize(key)| && Normalize(key)[i..] == Normalize(key[j..])
  {
    hide Alphanumeric;
    if j == 0 {
      i := 0;
      assert key[0..] == key;
    } else {
      var k := SuffixIsNormal(key[1..], j - 1);
      assert key[1..][j - 1..] == key[j..];
      i := if Alphanumeric(key[0]) then k + 1 else k;
    }
  }

  lemma IncludedIffSpelled(key: string, part: string)
    requires LowerCase(part) && part != ""
    ensures Includes(Normalize(key), part) <==> exists at: seq<nat> :: Spells(key, part, at)
  {
    hide IsOrCapitalizes, LetterOrDigit, Normalize;
    if Includes(Normalize(key), part) {
      var i :| 0 <= i <= |Normalize(key)| && part <= Normalize(key)[i..];
      var j := NormalSuffix(key, i);
      var at := PrefixIsSpelled(key[j..], part);
      SpellingShifts(key, part, at, j);
    }
    if at: seq<nat> :| Spells(key, part, at) {
      forall j | 0 <= j < |at| ensures at[j] >= at[0] + j { PlacesIncrease(key, part, at, j); }
      var s := SpellingUnshifts(key, part, at, at[0]);
      SpelledIsPrefix(key[at[0]..], part, s);
      var i := SuffixIsNormal(key, at[0]);
    }
  }

  lemma PartsAreLowerCase()
    ensures forall i | 0 <= i < |SENSITIVE_KEY_PARTS| ::
              LowerCase(SENSITIVE_KEY_PARTS[i]) && SENSITIVE_KEY_PARTS[i] != ""
  {
  }

  /** A key is sensitive if and only if it spells one of the listed parts. */
  lemma SensitiveIffSpelled(key: string)
    ensures IsSensitiveKey(key) <==> SpellsAPart(key)
  {
    hide Spells, Normalize, Includes, LowerCase;
    PartsAreLowerCase();
    forall i | 0 <= i < |SENSITIVE_KEY_PARTS|
      ensures Includes(Normalize(key), SENSITIVE_KEY_PARTS[i])
              <==> exists at: seq<nat> :: Spells(key, SENSITIVE_KEY_PARTS[i], at)
    {
      IncludedIffSpelled(key, SENSITIVE_KEY_PARTS[i]);
    }
    if SpellsAPart(key) {
      var part, at: seq<nat> :|
        && part in {"authorization", "password", "passphrase", "secret", "privatekey", "signingprivatekey",
                    "accesstoken", "refreshtoken", "idtoken", "token", "ucan", "credential", "apikey", "keyring",
                    "teamkeyring", "deviceprivatekey"}
        && Spells(key, part, at);
      var i := PartIsListed(part);
    }
  }

  lemma PartIsListed(part: string) returns (i: nat)
    requires part in {"authorization", "password", "passphrase", "secret", "privatekey", "signingprivatekey",
                      "accesstoken", "refreshtoken", "idtoken", "token", "ucan", "credential", "apikey", "keyring",
                      "teamkeyring", "deviceprivatekey"}
    ensures i < |SENSITIVE_KEY_PARTS| && SENSITIVE_KEY_PARTS[i] == part
  {
    assert SENSITIVE_KEY_PARTS[0] == "authorization" && SENSITIVE_KEY_PARTS[1] == "password";
    assert SENSITIVE_KEY_PARTS[2] == "passphrase" && SENSITIVE_KEY_PARTS[3] == "secret";
    assert SENSITIVE_KEY_PARTS[4] == "privatekey" && SENSITIVE_KEY_PARTS[5] == "signingprivatekey";
    assert SENSITIVE_KEY_PARTS[6] == "accesstoken" && SENSITIVE_KEY_PARTS[7] == "refreshtoken";
    assert SENSITIVE_KEY_PARTS[8] == "idtoken" && SENSITIVE_KEY_PARTS[9] == "token";
    assert SENSITIVE_KEY_PARTS[10] == "ucan" && SENSITIVE_KEY_PARTS[11] == "credential";
    assert SENSITIVE_KEY_PARTS[12] == "apikey" && SENSITIVE_KEY_PARTS[13] == "keyring";
    assert SENSITIVE_KEY_PARTS[14] == "teamkeyring" && SENSITIVE_KEY_PARTS[15] == "deviceprivatekey";
    i :| 0 <= i < |SENSITIVE_KEY_PARTS| && SENSITIVE_KEY_PARTS[i] == part;
  }

  // What follows for keys.

  /** Letter case does not matter. */
  lemma {:induction false} CaseDoesNotMatter(a: string, b: string)
    requires |a| == |b| && forall i | 0 <= i < |a| ::
               a[i] == b[i] || exists k | 0 <= k < 26 :: {a[i], b[i]} == {UPPER_CASE[k], LOWER_CASE[k]}
    ensures IsSensitiveKey(a) == IsSensitiveKey(b)
  {
    hide Includes;
    CaseIsNormalizedAway(a, b);
  }

  lemma {:induction false} CaseIsNormalizedAway(a: string, b: string)
    requires |a| == |b| && forall i | 0 <= i < |a| ::
               a[i] == b[i] || exists k | 0 <= k < 26 :: {a[i], b[i]} == {UPPER_CASE[k], LOWER_CASE[k]}
    ensures Normalize(a) == Normalize(b)
  {
    hide Alphanumeric;
    if a != "" {
      NormalizeStep(a);
      NormalizeStep(b);
      if a[0] != b[0] {
        var k :| 0 <= k < 26 && {a[0], b[0]} == {UPPER_CASE[k], LOWER_CASE[k]};
        assert a[0] in {UPPER_CASE[k], LOWER_CASE[k]} && b[0] in {UPPER_CASE[k], LOWER_CASE[k]};
        CasesAreAlike(a[0], b[0], k);
      }
      CaseIsNormalizedAway(a[1..], b[1..]);
    }
  }

  lemma CasesAreAlike(c: char, d: char, k: nat)
    requires k < 26 && c in {UPPER_CASE[k], LOWER_CASE[k]} && d in {UPPER_CASE[k], LOWER_CASE[k]}
    ensures Alphanumeric(c) && Alphanumeric(d) && Normalize([c]) == Normalize([d])
  {
    CapitalLetters();
    assert UPPER_CASE[k] == 'A' + k as char && LOWER_CASE[k] == 'a' + k as char;
    assert [c][1..] == "" && [d][1..] == "";
  }

  /** Nor does any character that is neither letter nor digit. */
  lemma {:induction false} SeparatorsDoNotMatter(key: string, i: nat, c: char)
    requires i <= |key| && !LetterOrDigit(c)
    ensures IsSensitiveKey(key[..i] + [c] + key[i..]) == IsSensitiveKey(key)
  {
    hide Includes, LetterOrDigit;
    SeparatorIsNormalizedAway(key, i, c);
  }

  lemma {:induction false} SeparatorIsNormalizedAway(key: string, i: nat, c: char)
    requires i <= |key| && !LetterOrDigit(c)
    ensures Normalize(key[..i] + [c] + key[i..]) == Normalize(key)
  {
    hide LetterOrDigit;
    LettersAreAlphanumeric(c);
    var grown := key[..i] + [c] + key[i..];
    if i == 0 {
      assert grown[1..] == key;
    } else {
      SeparatorIsNormalizedAway(key[1..], i - 1, c);
      assert grown[1..] == key[1..][..i - 1] + [c] + key[1..][i - 1..];
    }
  }

  // What is redacted.

  /** A keyed value is redacted if and only if values are sanitized and its key spells a listed part. */
  lemma RedactedIffSpelled(h: Heap, opts: Options, key: string, v: Value, depth: nat, seen: set<nat>)
    requires WellFormed(h) && ValidRef(h, v)
    ensures Run(h, opts, Child(Keyed(key), v), depth, seen).0 == Done(ORedacted)
            <==> opts.sanitizeValues && SpellsAPart(key)
    ensures opts.sanitizeValues && SpellsAPart(key) ==> Run(h, opts, Child(Keyed(key), v), depth, seen).1 == seen
  {
    hide WellFormed, IsSensitiveKey, SpellsAPart, RunAll, Children, Budget, ErrorFields, FirstFields, PutAll;
    SensitiveIffSpelled(key);
  }

  lemma {:induction false} RedactedInList(
    h: Heap, opts: Options, cs: seq<Child>, depth: nat, seen: set<nat>, catching: bool, i: nat, key: string)
    requires WellFormed(h) && (forall k | 0 <= k < |cs| :: ValidRef(h, cs[k].value)) && i < |cs|
    requires cs[i].key == Keyed(key) && opts.sanitizeValues && SpellsAPart(key)
    requires RunAll(h, opts, cs, depth, seen, catching).0.AllDone?
    ensures |RunAll(h, opts, cs, depth, seen, catching).0.outs| == |cs|
            && RunAll(h, opts, cs, depth, seen, catching).0.outs[i] == ORedacted
    decreases |cs|
  {
    hide WellFormed, SpellsAPart, Run, Budget;
    OneOutEach(h, opts, cs, depth, seen, catching);
    var n := |cs| - 1;
    var (before, mid) := RunAll(h, opts, cs[..n], depth, seen, catching);
    OneOutEach(h, opts, cs[..n], depth, seen, catching);
    if i < n {
      RedactedInList(h, opts, cs[..n], depth, seen, catching, i, key);
    } else {
      RedactedIffSpelled(h, opts, key, cs[n].value, depth, mid);
    }
  }

  lemma {:induction false} OneOutEach(
    h: Heap, opts: Options, cs: seq<Child>, depth: nat, seen: set<nat>, catching: bool)
    requires WellFormed(h) && (forall k | 0 <= k < |cs| :: ValidRef(h, cs[k].value))
    ensures var r := RunAll(h, opts, cs, depth, seen, catching).0; r.AllDone? ==> |r.outs| == |cs|
    decreases |cs|
  {
    hide WellFormed, Run, Budget;
    if cs != [] { OneOutEach(h, opts, cs[..|cs| - 1], depth, seen, catching); }
  }
}
