/**
 * The callback-id normalisation of bu/getInlineKeyboard.js:40:
 * `button.toLowerCase().replace(/\s+/g, "_")`.
 *
 * Both character classes are restricted to ASCII: lower-casing maps only 'A'..'Z',
 * and whitespace is space, tab, line feed, vertical tab, form feed and carriage
 * return. JavaScript's `toLowerCase` and `\s` also cover non-ASCII characters.
 */
module CallbackIds {

  /**
   * The ASCII members of the regular-expression class `\s`: space, tab, line
   * feed, vertical tab, form feed and carriage return, that is the space and the
   * five control characters from U+0009 to U+000D.
   */
  function IsWhitespace(c: char): (b: bool)
    ensures b <==> c == ' ' || '\U{0009}' <= c <= '\U{000D}'
  {
    c == ' ' || c == '\t' || c == '\n' || c == '\U{000B}' || c == '\U{000C}' || c == '\r'
  }

  predicate IsUpper(c: char) {
    'A' <= c <= 'Z'
  }

  predicate NoWhitespace(s: string) {
    forall i :: 0 <= i < |s| ==> !IsWhitespace(s[i])
  }

  predicate NoUpper(s: string) {
    forall i :: 0 <= i < |s| ==> !IsUpper(s[i])
  }

  predicate AllWhitespace(s: string) {
    forall i :: 0 <= i < |s| ==> IsWhitespace(s[i])
  }

  /** The ASCII letters, upper-case and lower-case, in the same order. */
  const UpperLetters: string := "ABCDEFGHIJKLMNOPQRSTUVWXYZ"
  const LowerLetters: string := "abcdefghijklmnopqrstuvwxyz"

  /** ASCII lower-casing of one character. */
  function LowerChar(c: char): (d: char)
    ensures IsUpper(c) ==>
      UpperLetters[c as int - 'A' as int] == c && d == LowerLetters[c as int - 'A' as int]
    ensures !IsUpper(d)
    ensures IsWhitespace(d) <==> IsWhitespace(c)
    ensures !IsUpper(c) ==> d == c
  {
    if IsUpper(c) then (c as int + 32) as char else c
  }

  /** `String.prototype.toLowerCase`, restricted to ASCII letters. */
  function ToLower(s: string): (r: string)
    ensures |r| == |s|
    ensures NoUpper(r)
    ensures forall i :: 0 <= i < |s| ==> (IsWhitespace(r[i]) <==> IsWhitespace(s[i]))
    ensures forall i :: 0 <= i < |s| ==> r[i] == LowerChar(s[i])
  {
    seq(|s|, i requires 0 <= i < |s| => LowerChar(s[i]))
  }

  /** Lower-casing a string that has no upper-case letter leaves it as it is. */
  lemma ToLowerIdentity(s: string)
    requires NoUpper(s)
    ensures ToLower(s) == s
  {
    var r := ToLower(s);
    forall i | 0 <= i < |s| ensures r[i] == s[i] {
      assert r[i] == LowerChar(s[i]);
    }
  }

  /** The length of the longest whitespace prefix of `s`. */
  function LeadingWhitespace(s: string): (n: nat)
    ensures n <= |s|
    ensures forall i :: 0 <= i < n ==> IsWhitespace(s[i])
    ensures n < |s| ==> !IsWhitespace(s[n])
  {
    if s != [] && IsWhitespace(s[0]) then 1 + LeadingWhitespace(s[1..]) else 0
  }

  /** The three properties above determine the length of the whitespace prefix. */
  lemma LeadingWhitespaceUnique(s: string, n: nat)
    requires n <= |s|
    requires forall i :: 0 <= i < n ==> IsWhitespace(s[i])
    requires n < |s| ==> !IsWhitespace(s[n])
    ensures LeadingWhitespace(s) == n
  {
  }

  /**
   * How many characters the replacement consumes at the front of `s`: a whole
   * whitespace run, or a single other character.
   */
  function Step(s: string): (k: nat)
    requires s != []
    ensures 1 <= k <= |s|
  {
    if IsWhitespace(s[0]) then LeadingWhitespace(s) else 1
  }

  /**
   * `replace(/\s+/g, "_")`: every maximal run of whitespace becomes one '_',
   * every other character is kept in place.
   */
  function ReplaceWhitespaceRuns(s: string): (r: string)
    ensures |r| <= |s|
    decreases |s|
  {
    if s == [] then []
    else (if IsWhitespace(s[0]) then "_" else [s[0]]) + ReplaceWhitespaceRuns(s[Step(s)..])
  }

  /** The replacement leaves no whitespace behind. */
  lemma {:induction false} ReplaceNoWhitespace(s: string)
    ensures NoWhitespace(ReplaceWhitespaceRuns(s))
    decreases |s|
  {
    if s != [] {
      ReplaceNoWhitespace(s[Step(s)..]);
    }
  }

  /** The replacement introduces no upper-case letter. */
  lemma {:induction false} ReplaceNoUpper(s: string)
    requires NoUpper(s)
    ensures NoUpper(ReplaceWhitespaceRuns(s))
    decreases |s|
  {
    if s != [] {
      var t := s[Step(s)..];
      assert NoUpper(t) by {
        forall i | 0 <= i < |t| ensures !IsUpper(t[i]) {
          assert t[i] == s[Step(s) + i];
        }
      }
      ReplaceNoUpper(t);
    }
  }

  /** The callback id derived from a button label. */
  function CallbackData(text: string): (id: string)
    ensures NoWhitespace(id)
    ensures NoUpper(id)
    ensures |id| <= |text|
  {
    var lower := ToLower(text);
    ReplaceNoWhitespace(lower);
    ReplaceNoUpper(lower);
    ReplaceWhitespaceRuns(lower)
  }

  /**
   * A character-by-character reading of the same replacement: a whitespace
   * character becomes '_' unless the character before it was whitespace too,
   * in which case it is dropped. `afterWs` says whether the previous character
   * was whitespace.
   */
  function CollapseFrom(s: string, afterWs: bool): (r: string)
    ensures |r| <= |s|
  {
    if s == [] then []
    else if !IsWhitespace(s[0]) then [s[0]] + CollapseFrom(s[1..], false)
    else if afterWs then CollapseFrom(s[1..], true)
    else "_" + CollapseFrom(s[1..], true)
  }

  /** After whitespace, the rest of a whitespace run is dropped. */
  lemma {:induction false} CollapseSkipsRun(s: string)
    ensures CollapseFrom(s, true) == CollapseFrom(s[LeadingWhitespace(s)..], true)
    decreases |s|
  {
    if s != [] && IsWhitespace(s[0]) {
      CollapseSkipsRun(s[1..]);
      assert s[1..][LeadingWhitespace(s[1..])..] == s[LeadingWhitespace(s)..];
    }
  }

  /** The run-based replacement and the character-by-character reading agree on every string. */
  lemma {:induction false} ReplaceIsCollapse(s: string)
    ensures ReplaceWhitespaceRuns(s) == CollapseFrom(s, false)
    decreases |s|
  {
    if s != [] {
      var k := Step(s);
      ReplaceIsCollapse(s[k..]);
      if IsWhitespace(s[0]) {
        CollapseSkipsRun(s[1..]);
        assert s[1..][LeadingWhitespace(s[1..])..] == s[k..];
        var t := s[k..];
        assert t == [] || !IsWhitespace(t[0]);
        assert CollapseFrom(t, true) == CollapseFrom(t, false);
      }
    }
  }

  /** Whether the character before the end of `a` is whitespace, given the one before `a`. */
  function EndsInWhitespace(a: string, afterWs: bool): bool {
    if a == [] then afterWs else IsWhitespace(a[|a| - 1])
  }

  /** The character-by-character reading splits at any point of its input. */
  lemma {:induction false} CollapseConcat(a: string, b: string, afterWs: bool)
    ensures CollapseFrom(a + b, afterWs)
      == CollapseFrom(a, afterWs) + CollapseFrom(b, EndsInWhitespace(a, afterWs))
    decreases |a|
  {
    if a == [] {
      assert a + b == b;
    } else {
      var ab := a + b;
      var f := IsWhitespace(a[0]);
      var e := EndsInWhitespace(a, afterWs);
      var head := if !f then [a[0]] else if afterWs then [] else "_";
      assert ab[0] == a[0] && ab[1..] == a[1..] + b;
      calc {
        CollapseFrom(ab, afterWs);
        head + CollapseFrom(a[1..] + b, f);
        { CollapseConcat(a[1..], b, f);
          assert EndsInWhitespace(a[1..], f) == e; }
        head + (CollapseFrom(a[1..], f) + CollapseFrom(b, e));
        (head + CollapseFrom(a[1..], f)) + CollapseFrom(b, e);
        CollapseFrom(a, afterWs) + CollapseFrom(b, e);
      }
    }
  }

  /** Input that does not start with whitespace reads the same whatever came before. */
  lemma CollapseIgnoresPrevious(s: string)
    requires s == [] || !IsWhitespace(s[0])
    ensures CollapseFrom(s, true) == CollapseFrom(s, false)
  {
  }

  /** Without whitespace, the character-by-character reading copies its input. */
  lemma {:induction false} CollapseIdentity(s: string, afterWs: bool)
    requires NoWhitespace(s)
    ensures CollapseFrom(s, afterWs) == s
    decreases |s|
  {
    if s != [] {
      assert !IsWhitespace(s[0]);
      assert NoWhitespace(s[1..]) by {
        forall i | 0 <= i < |s| - 1 ensures !IsWhitespace(s[1..][i]) {
          assert s[1..][i] == s[i + 1];
        }
      }
      CollapseIdentity(s[1..], false);
      assert s == [s[0]] + s[1..];
    }
  }

  /** After whitespace, a run of whitespace produces nothing. */
  lemma {:induction false} CollapseDropsRun(g: string)
    requires AllWhitespace(g)
    ensures CollapseFrom(g, true) == []
    decreases |g|
  {
    if g != [] {
      assert AllWhitespace(g[1..]) by {
        forall i | 0 <= i < |g| - 1 ensures IsWhitespace(g[1..][i]) {
          assert g[1..][i] == g[i + 1];
        }
      }
      CollapseDropsRun(g[1..]);
    }
  }

  /** A string without whitespace passes through the replacement unchanged. */
  lemma ReplaceIdentity(s: string)
    requires NoWhitespace(s)
    ensures ReplaceWhitespaceRuns(s) == s
  {
    ReplaceIsCollapse(s);
    CollapseIdentity(s, false);
  }

  /** A non-empty run made only of whitespace becomes exactly one '_'. */
  lemma WhitespaceRunCollapses(g: string)
    requires g != [] && AllWhitespace(g)
    ensures ReplaceWhitespaceRuns(g) == "_"
  {
    ReplaceIsCollapse(g);
    assert AllWhitespace(g[1..]) by {
      forall i | 0 <= i < |g| - 1 ensures IsWhitespace(g[1..][i]) {
        assert g[1..][i] == g[i + 1];
      }
    }
    CollapseDropsRun(g[1..]);
  }

  /**
   * The replacement distributes over concatenation whenever the split does not
   * fall inside a whitespace run.
   */
  lemma ReplaceConcat(a: string, b: string)
    requires a == [] || b == [] || !IsWhitespace(a[|a| - 1]) || !IsWhitespace(b[0])
    ensures ReplaceWhitespaceRuns(a + b) == ReplaceWhitespaceRuns(a) + ReplaceWhitespaceRuns(b)
  {
    ReplaceIsCollapse(a + b);
    ReplaceIsCollapse(a);
    ReplaceIsCollapse(b);
    CollapseConcat(a, b, false);
    if EndsInWhitespace(a, false) {
      CollapseIgnoresPrevious(b);
    }
  }

  /** The normalisation is idempotent. */
  lemma CallbackDataIdempotent(text: string)
    ensures CallbackData(CallbackData(text)) == CallbackData(text)
  {
    var id := CallbackData(text);
    ToLowerIdentity(id);
    ReplaceIdentity(id);
  }

  /**
   * A word followed by one whitespace character: the word is kept, the whitespace
   * becomes '_', and the rest is replaced on its own.
   */
  lemma ReplaceWordStep(word: string, c: char, rest: string)
    requires word != [] && NoWhitespace(word) && IsWhitespace(c)
    requires rest == [] || !IsWhitespace(rest[0])
    ensures ReplaceWhitespaceRuns(word + [c] + rest) == word + "_" + ReplaceWhitespaceRuns(rest)
  {
    ReplaceIsCollapse(word + [c] + rest);
    ReplaceIsCollapse(rest);
    CollapseWordStep(word, c, rest);
  }

  /** ReplaceWordStep for the character-by-character reading. */
  lemma CollapseWordStep(word: string, c: char, rest: string)
    requires word != [] && NoWhitespace(word) && IsWhitespace(c)
    requires rest == [] || !IsWhitespace(rest[0])
    ensures CollapseFrom(word + [c] + rest, false) == word + "_" + CollapseFrom(rest, false)
  {
    var tail := [c] + rest;
    calc {
      CollapseFrom(word + [c] + rest, false);
      { assert word + [c] + rest == word + tail; }
      CollapseFrom(word + tail, false);
      { CollapseConcat(word, tail, false);
        assert !IsWhitespace(word[|word| - 1]); }
      CollapseFrom(word, false) + CollapseFrom(tail, false);
      { CollapseIdentity(word, false); }
      word + CollapseFrom(tail, false);
      { assert tail[0] == c && tail[1..] == rest;
        CollapseIgnoresPrevious(rest); }
      word + ("_" + CollapseFrom(rest, false));
      word + "_" + CollapseFrom(rest, false);
    }
  }

  /** The words of `words` joined by the separator `sep`. */
  function Join(words: seq<string>, sep: char): string
  {
    if |words| == 0 then []
    else if |words| == 1 then words[0]
    else words[0] + [sep] + Join(words[1..], sep)
  }

  /** Words that are non-empty and contain no whitespace. */
  predicate AreWords(words: seq<string>) {
    forall i :: 0 <= i < |words| ==> words[i] != [] && NoWhitespace(words[i])
  }

  /** Words separated by single whitespace characters come out separated by '_'. */
  lemma {:induction false} ReplaceJoined(words: seq<string>, c: char)
    requires AreWords(words) && IsWhitespace(c)
    ensures ReplaceWhitespaceRuns(Join(words, c)) == Join(words, '_')
    decreases |words|
  {
    if |words| == 1 {
      ReplaceIdentity(words[0]);
    } else if |words| > 1 {
      var rest := Join(words[1..], c);
      assert words[1..][0] == words[1];
      assert rest[0] == words[1][0] by {
        if |words| > 2 {
          assert rest == words[1] + [c] + Join(words[2..], c) by {
            assert words[1..][1..] == words[2..];
          }
        }
      }
      ReplaceWordStep(words[0], c, rest);
      ReplaceJoined(words[1..], c);
    }
  }

  /** A label whose lower-cased form is words separated by one whitespace character each. */
  lemma CallbackDataOfWords(text: string, words: seq<string>, c: char, id: string)
    requires AreWords(words) && IsWhitespace(c)
    requires ToLower(text) == Join(words, c)
    requires Join(words, '_') == id
    ensures CallbackData(text) == id
  {
    ReplaceJoined(words, c);
  }

  /** "Invite Friends", lower-cased, is two words separated by a space. */
  lemma InviteFriendsLower()
    ensures ToLower("Invite Friends") == "invite friends"
  {
  }

  /** The two lower-cased words of "Invite Friends", joined by a space and by '_'. */
  lemma InviteFriendsWords()
    ensures AreWords(["invite", "friends"])
    ensures Join(["invite", "friends"], ' ') == "invite friends"
    ensures Join(["invite", "friends"], '_') == "invite_friends"
  {
  }

  /** The label "Invite Friends" of the main menu becomes "invite_friends". */
  lemma InviteFriendsId()
    ensures CallbackData("Invite Friends") == "invite_friends"
  {
    InviteFriendsLower();
    InviteFriendsWords();
    CallbackDataOfWords("Invite Friends", ["invite", "friends"], ' ', "invite_friends");
  }

  /** "Back to Main Menu", lower-cased, is four words separated by spaces. */
  lemma BackToMainMenuLower()
    ensures ToLower("Back to Main Menu") == "back to main menu"
  {
  }

  /** The four lower-cased words of "Back to Main Menu", joined by spaces and by '_'. */
  lemma BackToMainMenuWords()
    ensures AreWords(["back", "to", "main", "menu"])
    ensures Join(["back", "to", "main", "menu"], ' ') == "back to main menu"
  {
  }

  /** The same four words joined by '_'. */
  lemma BackToMainMenuJoined()
    ensures Join(["back", "to", "main", "menu"], '_') == "back_to_main_menu"
  {
  }

  /** The hard-coded id of the Back button is what the normalisation derives from its label. */
  lemma BackToMainMenuId()
    ensures CallbackData("Back to Main Menu") == "back_to_main_menu"
  {
    BackToMainMenuLower();
    BackToMainMenuWords();
    BackToMainMenuJoined();
    CallbackDataOfWords("Back to Main Menu", ["back", "to", "main", "menu"], ' ', "back_to_main_menu");
  }
}
