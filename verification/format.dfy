/**
  The pure text helpers of main.go: HTML escaping of untrusted text and the
  display-name fallbacks used in notification headers.
 */
module Format {
  import opened Models
  import Decimal

  // ---------------------------------------------------------------------------
  // HTML escaping
  // ---------------------------------------------------------------------------

  /**
    `strings.ReplaceAll(s, old, new)` for a one-character `old` (here `pattern`), the only form
    the escaper uses: every occurrence of `pattern` is replaced by `replacement`.
   */
  function ReplaceAll(s: string, pattern: char, replacement: string): (r: string)
    ensures pattern !in s ==> r == s
    ensures pattern !in replacement ==> pattern !in r
    decreases |s|
  {
    if |s| == 0 then ""
    else (if s[0] == pattern then replacement else [s[0]]) + ReplaceAll(s[1..], pattern, replacement)
  }

  lemma {:induction false} ReplaceAllAppend(a: string, b: string, pattern: char, replacement: string)
    ensures ReplaceAll(a + b, pattern, replacement) == ReplaceAll(a, pattern, replacement) + ReplaceAll(b, pattern, replacement)
    decreases |a|
  {
    if |a| == 0 {
      assert a + b == b;
    } else {
      assert (a + b)[0] == a[0];
      assert (a + b)[1..] == a[1..] + b;
      ReplaceAllAppend(a[1..], b, pattern, replacement);
    }
  }

  /** The entity a single character is written as. */
  function EscapeChar(c: char): string {
    if c == '&' then "&amp;"
    else if c == '<' then "&lt;"
    else if c == '>' then "&gt;"
    else [c]
  }

  /** Reference escaper: one pass, each character mapped on its own. */
  function EscapeEach(s: string): string
    decreases |s|
  {
    if |s| == 0 then "" else EscapeChar(s[0]) + EscapeEach(s[1..])
  }

  predicate HasSpecial(s: string) {
    '&' in s || '<' in s || '>' in s
  }

  /**
    escapeHTML: `&` first, then `<`, then `>`. Because `&` goes first, the
    ampersands introduced by the later passes are never escaped again, so the
    three passes agree with the one-pass reference and can be undone.
   */
  function EscapeHTML(text: string): (r: string)
    ensures r == EscapeEach(text)
    ensures '<' !in r && '>' !in r
    ensures !HasSpecial(text) ==> r == text
    ensures Unescape(r) == text
  {
    ThreePassIsOnePass(text);
    EscapeEachNoAngles(text);
    UnescapeEscapeEach(text);
    ReplaceAll(ReplaceAll(ReplaceAll(text, '&', "&amp;"), '<', "&lt;"), '>', "&gt;")
  }

  lemma {:induction false} ThreePassIsOnePass(s: string)
    ensures ReplaceAll(ReplaceAll(ReplaceAll(s, '&', "&amp;"), '<', "&lt;"), '>', "&gt;") == EscapeEach(s)
    decreases |s|
  {
    if |s| > 0 {
      var c, t := s[0], s[1..];
      assert s == [c] + t;
      ReplaceAllAppend([c], t, '&', "&amp;");
      var head1, tail1 := ReplaceAll([c], '&', "&amp;"), ReplaceAll(t, '&', "&amp;");
      ReplaceAllAppend(head1, tail1, '<', "&lt;");
      var head2, tail2 := ReplaceAll(head1, '<', "&lt;"), ReplaceAll(tail1, '<', "&lt;");
      ReplaceAllAppend(head2, tail2, '>', "&gt;");
      ThreePassChar(c);
      ThreePassIsOnePass(t);
    }
  }

  /** The three passes on a single character give that character's entity. */
  lemma ThreePassChar(c: char)
    ensures ReplaceAll(ReplaceAll(ReplaceAll([c], '&', "&amp;"), '<', "&lt;"), '>', "&gt;") == EscapeChar(c)
  {
    ReplaceAllSingle(c, '&', "&amp;");
    if c == '&' {
      assert '<' !in "&amp;" && '>' !in "&amp;";
    } else {
      ReplaceAllSingle(c, '<', "&lt;");
      if c == '<' {
        assert '>' !in "&lt;";
      } else {
        ReplaceAllSingle(c, '>', "&gt;");
      }
    }
  }

  lemma ReplaceAllSingle(c: char, pattern: char, replacement: string)
    ensures ReplaceAll([c], pattern, replacement) == if c == pattern then replacement else [c]
  {
    assert [c][1..] == [];
  }

  lemma {:induction false} EscapeEachNoAngles(s: string)
    ensures '<' !in EscapeEach(s) && '>' !in EscapeEach(s)
    ensures !HasSpecial(s) ==> EscapeEach(s) == s
    decreases |s|
  {
    if |s| > 0 {
      EscapeEachNoAngles(s[1..]);
      if !HasSpecial(s) {
        assert s[0] !in "&<>";
        assert !HasSpecial(s[1..]) by {
          forall c | c in s[1..] ensures c in s { }
        }
        assert s == [s[0]] + s[1..];
      }
    }
  }

  // ---------------------------------------------------------------------------
  // Unescaping, the inverse used to state that escaping loses nothing
  // ---------------------------------------------------------------------------

  predicate StartsWith(s: string, prefix: string) {
    |prefix| <= |s| && s[..|prefix|] == prefix
  }

  /** Decodes the three entities the escaper writes; every other character stands for itself. */
  function Unescape(s: string): string
    decreases |s|
  {
    if |s| == 0 then ""
    else if StartsWith(s, "&amp;") then "&" + Unescape(s[5..])
    else if StartsWith(s, "&lt;") then "<" + Unescape(s[4..])
    else if StartsWith(s, "&gt;") then ">" + Unescape(s[4..])
    else [s[0]] + Unescape(s[1..])
  }

  lemma UnescapeStep(c: char, rest: string)
    ensures Unescape(EscapeChar(c) + rest) == [c] + Unescape(rest)
  {
    if c == '&' {
      UnescapeAmp(rest);
    } else if c == '<' {
      UnescapeLt(rest);
    } else if c == '>' {
      UnescapeGt(rest);
    } else {
      UnescapePlain(c, rest);
    }
  }

  lemma UnescapeAmp(rest: string)
    ensures Unescape("&amp;" + rest) == "&" + Unescape(rest)
  {
    var s := "&amp;" + rest;
    assert s[..5] == "&amp;";
    assert s[5..] == rest;
  }

  lemma UnescapeLt(rest: string)
    ensures Unescape("&lt;" + rest) == "<" + Unescape(rest)
  {
    var s := "&lt;" + rest;
    assert !StartsWith(s, "&amp;") by { assert s[1] == 'l'; }
    assert s[..4] == "&lt;";
    assert s[4..] == rest;
  }

  lemma UnescapeGt(rest: string)
    ensures Unescape("&gt;" + rest) == ">" + Unescape(rest)
  {
    var s := "&gt;" + rest;
    assert !StartsWith(s, "&amp;") by { assert s[1] == 'g'; }
    assert !StartsWith(s, "&lt;") by { assert s[1] == 'g'; }
    assert s[..4] == "&gt;";
    assert s[4..] == rest;
  }

  /** A character that starts no entity decodes to itself. */
  lemma UnescapePlain(c: char, rest: string)
    requires c != '&'
    ensures Unescape([c] + rest) == [c] + Unescape(rest)
  {
    var s := [c] + rest;
    assert s[0] == c;
    assert s[1..] == rest;
  }

  lemma {:induction false} UnescapeEscapeEach(s: string)
    ensures Unescape(EscapeEach(s)) == s
    decreases |s|
  {
    if |s| > 0 {
      UnescapeStep(s[0], EscapeEach(s[1..]));
      UnescapeEscapeEach(s[1..]);
      assert s == [s[0]] + s[1..];
    }
  }

  /** The worked example: `<b>&hi</b>`. */
  lemma EscapeExample()
    ensures EscapeHTML("<b>&hi</b>") == "&lt;b&gt;&amp;hi&lt;/b&gt;"
  {
    EscapeEachExample("<b>&hi</b>");
  }

  lemma EscapeEachCons(s: string)
    requires |s| > 0
    ensures EscapeEach(s) == EscapeChar(s[0]) + EscapeEach(s[1..])
  { }

  /** The example string, stated character by character so that the proof unfolds one step at a time. */
  predicate IsExampleInput(s: string) {
    && |s| == 10
    && s[0] == '<' && s[1] == 'b' && s[2] == '>' && s[3] == '&' && s[4] == 'h'
    && s[5] == 'i' && s[6] == '<' && s[7] == '/' && s[8] == 'b' && s[9] == '>'
  }

  lemma EscapeEachExample(s: string)
    requires IsExampleInput(s)
    ensures EscapeEach(s) == "&lt;b&gt;&amp;hi&lt;/b&gt;"
  {
    EscapeEachExampleMiddle(s);
    EscapeEachCons(s[1..]);
    assert s[1..][1..] == s[2..];
    EscapeEachCons(s);
  }

  lemma EscapeEachExampleMiddle(s: string)
    requires IsExampleInput(s)
    ensures EscapeEach(s[2..]) == "&gt;&amp;hi&lt;/b&gt;"
  {
    EscapeEachExampleTail(s);
    EscapeEachCons(s[3..]);
    assert s[3..][1..] == s[4..];
    EscapeEachCons(s[2..]);
    assert s[2..][1..] == s[3..];
  }

  lemma EscapeEachExampleTail(s: string)
    requires IsExampleInput(s)
    ensures EscapeEach(s[4..]) == "hi&lt;/b&gt;"
  {
    assert s[9..][1..] == [];
    EscapeEachCons(s[9..]);
    assert s[8..][1..] == s[9..]; EscapeEachCons(s[8..]);
    assert s[7..][1..] == s[8..]; EscapeEachCons(s[7..]);
    assert s[6..][1..] == s[7..]; EscapeEachCons(s[6..]);
    assert s[5..][1..] == s[6..]; EscapeEachCons(s[5..]);
    assert s[4..][1..] == s[5..]; EscapeEachCons(s[4..]);
  }

  // ---------------------------------------------------------------------------
  // Display names
  // ---------------------------------------------------------------------------

  /** First name, then a space and the last name when there is one. */
  function FullName(firstName: string, lastName: string): string {
    if lastName != "" then firstName + " " + lastName else firstName
  }

  /** A handle written with its '@', or nothing when there is no handle. */
  function Handle(username: string): string {
    if username != "" then "@" + username else ""
  }

  /** The first non-empty candidate, or `fallback` when all are empty. */
  function FirstNonEmpty(candidates: seq<string>, fallback: string): string {
    if |candidates| == 0 then fallback
    else if candidates[0] != "" then candidates[0]
    else FirstNonEmpty(candidates[1..], fallback)
  }

  /** getChatTitle: title, else @handle, else first and last name, else "Chat <id>". */
  function ChatTitle(chat: Chat): (r: string)
    ensures r != ""
    ensures r == FirstNonEmpty(
      [chat.title, Handle(chat.username), FullName(chat.firstName, chat.lastName)],
      "Chat " + Decimal.IntToDecimal(chat.id))
  {
    var candidates := [chat.title, Handle(chat.username), FullName(chat.firstName, chat.lastName)];
    assert candidates[1..][1..][1..] == [];
    if chat.title != "" then chat.title
    else if chat.username != "" then "@" + chat.username
    else
      var name := FullName(chat.firstName, chat.lastName);
      assert FirstNonEmpty(candidates, "Chat " + Decimal.IntToDecimal(chat.id))
        == FirstNonEmpty(candidates[1..][1..], "Chat " + Decimal.IntToDecimal(chat.id));
      if name != "" then name else "Chat " + Decimal.IntToDecimal(chat.id)
  }

  /** getUserName: @handle, else first and last name, else "User <id>". */
  function UserName(user: User): (r: string)
    ensures r != ""
    ensures r == FirstNonEmpty(
      [Handle(user.username), FullName(user.firstName, user.lastName)],
      "User " + Decimal.IntToDecimal(user.id))
  {
    var candidates := [Handle(user.username), FullName(user.firstName, user.lastName)];
    assert candidates[1..][1..] == [];
    if user.username != "" then "@" + user.username
    else
      var name := FullName(user.firstName, user.lastName);
      assert FirstNonEmpty(candidates, "User " + Decimal.IntToDecimal(user.id))
        == FirstNonEmpty(candidates[1..], "User " + Decimal.IntToDecimal(user.id));
      if name != "" then name else "User " + Decimal.IntToDecimal(user.id)
  }

  /**
    An untitled chat is named like the user it is with: same handle, same
    first and last name, differing only in the numeric fallback's prefix.
   */
  lemma UntitledChatNamedLikeUser(chat: Chat, user: User)
    requires chat.title == ""
    requires chat.username == user.username
    requires chat.firstName == user.firstName && chat.lastName == user.lastName
    ensures chat.username != "" || FullName(chat.firstName, chat.lastName) != ""
      ==> ChatTitle(chat) == UserName(user)
    ensures chat.username == "" && chat.firstName == "" && chat.lastName == "" ==>
      && ChatTitle(chat) == "Chat " + Decimal.IntToDecimal(chat.id)
      && UserName(user) == "User " + Decimal.IntToDecimal(user.id)
  {
  }
}
