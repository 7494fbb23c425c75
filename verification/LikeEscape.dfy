/**
 Deleting preferences by key prefix: the prefix is escaped by three successive replacements and used as
 a LIKE pattern with a trailing `%`.
 */
module LikeEscape {
  import opened Options
  import opened Sequences

  /** `text.replace(c, with)` for a one-character `c`. */
  function Replace(text: string, c: char, with: string): string {
    if text == "" then ""
    else (if text[0] == c then with else [text[0]]) + Replace(text[1..], c, with)
  }

  /** The escaped prefix, in the order the program replaces. */
  function EscapePrefix(prefix: string): string {
    Replace(Replace(Replace(prefix, '\\', "\\\\"), '%', "\\%"), '_', "\\_")
  }

  function Pattern(prefix: string): string {
    EscapePrefix(prefix) + "%"
  }

  /** LIKE with backslash as the escape character.  A pattern ending in a lone backslash is an error in the
      database; it matches nothing here. */
  predicate Like(pattern: string, text: string)
    decreases |pattern|, |text|
  {
    if pattern == "" then text == ""
    else if pattern[0] == '%' then Like(pattern[1..], text) || (text != "" && Like(pattern, text[1..]))
    else if pattern[0] == '\\' then
      |pattern| > 1 && text != "" && text[0] == pattern[1] && Like(pattern[2..], text[1..])
    else text != "" && (pattern[0] == '_' || text[0] == pattern[0]) && Like(pattern[1..], text[1..])
  }

  /** What a pattern of one character, plain, wild or escaped, matches. */
  lemma LikeOne(c: char, text: string)
    ensures Like("", text) <==> text == ""
    ensures Like("_", text) <==> |text| == 1
    ensures Like("%", text)
    ensures c != '\\' && c != '%' && c != '_' ==> (Like([c], text) <==> text == [c])
    ensures Like(['\\', c], text) <==> text == [c]
  {
    PercentMatchesAll(text);
    assert "_"[1..] == "" && [c][1..] == "" && ['\\', c][2..] == "";
    assert text != "" ==> text == [text[0]] + text[1..];
  }

  /** Which is why the prefix is escaped: used as it is, "a_" would match a key that does not start with it. */
  lemma UnescapedMatchesMore()
    ensures Like("a_" + "%", "abc") && !("a_" <= "abc")
    ensures !Like(Pattern("a_"), "abc")
  {
    PatternMatchesPrefix("a_", "abc");
    PercentMatchesAll("c");
    assert ("a_" + "%")[1..] == "_%" && "_%"[1..] == "%" && "abc"[1..] == "bc" && "bc"[1..] == "c";
    assert "a_"[1] != "abc"[1];
  }

  // ----- the three replacements are one -----

  predicate Special(c: char) {
    c == '\\' || c == '%' || c == '_'
  }

  /** Each special character gets a backslash before it. */
  function EscapeEach(prefix: string): string {
    if prefix == "" then ""
    else (if Special(prefix[0]) then ['\\', prefix[0]] else [prefix[0]]) + EscapeEach(prefix[1..])
  }

  lemma {:induction false} ReplaceAppend(a: string, b: string, c: char, with: string)
    ensures Replace(a + b, c, with) == Replace(a, c, with) + Replace(b, c, with)
  {
    if a == "" {
      assert a + b == b;
    } else {
      var head := if a[0] == c then with else [a[0]];
      assert (a + b)[1..] == a[1..] + b && (a + b)[0] == a[0];
      ReplaceAppend(a[1..], b, c, with);
      AppendAssociates(head, Replace(a[1..], c, with), Replace(b, c, with));
    }
  }

  lemma ReplaceOne(x: char, c: char, with: string)
    ensures Replace([x], c, with) == if x == c then with else [x]
  {
  }

  lemma ReplaceTwo(x: char, y: char, c: char, with: string)
    ensures Replace([x, y], c, with) == (if x == c then with else [x]) + if y == c then with else [y]
  {
    ReplaceOne(y, c, with);
    assert [x, y][1..] == [y];
  }

  /** Replacing one special character after another never touches the backslashes a later step added, so the
      chain is the per-character escape. */
  lemma {:induction false} EscapeIsPerCharacter(prefix: string)
    ensures EscapePrefix(prefix) == EscapeEach(prefix)
  {
    if prefix != "" {
      var x, rest := prefix[0], prefix[1..];
      EscapeIsPerCharacter(rest);
      var first := if x == '\\' then "\\\\" else [x];
      var one := Replace(rest, '\\', "\\\\");
      var second := Replace(first, '%', "\\%");
      var two := Replace(one, '%', "\\%");
      assert Replace(prefix, '\\', "\\\\") == first + one;
      ReplaceAppend(first, one, '%', "\\%");
      ReplaceAppend(second, two, '_', "\\_");
      if x == '\\' {
        ReplaceTwo('\\', '\\', '%', "\\%");
        ReplaceTwo('\\', '\\', '_', "\\_");
      } else {
        ReplaceOne(x, '%', "\\%");
        if x == '%' {
          ReplaceTwo('\\', '%', '_', "\\_");
        } else {
          ReplaceOne(x, '_', "\\_");
        }
      }
    }
  }

  // ----- what the pattern matches -----

  lemma {:induction false} PercentMatchesAll(text: string)
    ensures Like("%", text)
  {
    if text != "" {
      PercentMatchesAll(text[1..]);
    } else {
      assert "%"[1..] == "";
    }
  }

  lemma {:induction false} EscapedMatchesLiterally(prefix: string, key: string)
    ensures Like(EscapeEach(prefix) + "%", key) <==> prefix <= key
  {
    if prefix == "" {
      assert EscapeEach(prefix) + "%" == "%";
      PercentMatchesAll(key);
    } else {
      var x, rest := prefix[0], prefix[1..];
      var pattern, tail := EscapeEach(prefix) + "%", EscapeEach(rest) + "%";
      if Special(x) {
        assert pattern == ['\\', x] + tail;
        assert pattern[2..] == tail;
      } else {
        assert pattern == [x] + tail;
        assert pattern[1..] == tail;
      }
      if key != "" {
        EscapedMatchesLiterally(rest, key[1..]);
        assert prefix <= key <==> x == key[0] && rest <= key[1..] by {
          assert prefix == [x] + rest && key == [key[0]] + key[1..];
        }
      }
    }
  }

  /** A key matches the pattern built from a prefix exactly when it starts with that prefix. */
  lemma PatternMatchesPrefix(prefix: string, key: string)
    ensures Like(Pattern(prefix), key) <==> prefix <= key
  {
    EscapeIsPerCharacter(prefix);
    EscapedMatchesLiterally(prefix, key);
  }

  // ----- the delete -----

  class Preferences {
    var rows: map<(string, string), string>

    constructor ()
      ensures rows == map[]
    {
      rows := map[];
    }

    method DeleteByPrefix(user: string, prefix: string)
      modifies this
      ensures rows == map k | k in old(rows) && !(k.0 == user && prefix <= k.1) :: old(rows)[k]
    {
      var pattern := Pattern(prefix);
      forall k | k in rows
        ensures Like(pattern, k.1) <==> prefix <= k.1
      {
        PatternMatchesPrefix(prefix, k.1);
      }
      rows := map k | k in rows && !(k.0 == user && Like(pattern, k.1)) :: rows[k];
    }
  }
}
