/**
 * The import-path helpers of lazy_loader_light.hpp: the recogniser `is_import_str`
 * and the splitter `split_import_string` for paths of the form "module!symbol".
 */
module ImportPath {

  /** `isalnum` in the "C" locale: ASCII digits and letters. */
  predicate IsAlnum(c: char)
    ensures IsAlnum(c) ==> c as int < 128
    ensures IsAlnum(c) ==> c != '!' && c != '_' && c != '.' && c != '/'
  {
    ('0' <= c <= '9') || ('a' <= c <= 'z') || ('A' <= c <= 'Z')
  }

  /** A character the recogniser admits. */
  predicate IsImportChar(c: char) {
    IsAlnum(c) || c == '!' || c == '_' || c == '.' || c == '/'
  }

  /** `std::all_of` over the string with the recogniser's character test. */
  function AllImportChars(s: string): (r: bool)
    ensures r <==> forall i :: 0 <= i < |s| ==> IsImportChar(s[i])
  {
    |s| == 0 || (IsImportChar(s[0]) && AllImportChars(s[1..]))
  }

  /** `is_import_str`: a non-empty string made only of import characters. */
  function IsImportStr(s: string): (r: bool)
    ensures r <==> |s| > 0 && forall i :: 0 <= i < |s| ==> IsImportChar(s[i])
  {
    |s| != 0 && AllImportChars(s)
  }

  /** Index of the first '!' in `s`, or |s| when there is none. */
  function FieldEnd(s: string): (k: nat)
    ensures k <= |s|
    ensures forall i :: 0 <= i < k ==> s[i] != '!'
    ensures k < |s| ==> s[k] == '!'
  {
    if |s| == 0 || s[0] == '!' then 0 else 1 + FieldEnd(s[1..])
  }

  /**
   * The tokens a `std::sregex_token_iterator` with submatch -1 and the pattern "!"
   * yields: the text before each '!', then the text after the last '!' unless that
   * text is empty. With no '!' at all the iterator starts as a suffix iterator over
   * the whole range, so even the empty string yields one (empty) token.
   */
  function Tokens(s: string): (r: seq<string>)
    ensures |r| >= 1
    ensures r[0] == s[..FieldEnd(s)]
    ensures forall i :: 0 <= i < |r| ==> '!' !in r[i]
    decreases |s|
  {
    var k := FieldEnd(s);
    if k == |s| then
      [s]
    else if k + 1 == |s| then
      [s[..k]]
    else
      [s[..k]] + Tokens(s[k + 1..])
  }

  /**
   * `split_import_string`: the first token and the second token, or "" when there
   * is only one. Where the path holds two or more '!', the text from the second '!'
   * on is dropped.
   */
  function Split(s: string): (r: (string, string))
    ensures '!' !in r.0 && '!' !in r.1
    ensures r.0 == s[..FieldEnd(s)]
    ensures r.1 == if FieldEnd(s) == |s| then ""
                   else var rest := s[FieldEnd(s) + 1..]; rest[..FieldEnd(rest)]
  {
    var t := Tokens(s);
    (t[0], if |t| > 1 then t[1] else "")
  }

  /** A path without '!' names a module only. */
  lemma SplitWithoutSeparator(a: string)
    requires '!' !in a
    ensures Split(a) == (a, "")
  {
    assert forall i :: 0 <= i < |a| ==> a[i] in a;
  }

  lemma FieldEndOfJoin(a: string, b: string)
    requires '!' !in a
    ensures FieldEnd(a + "!" + b) == |a|
  {
    var s := a + "!" + b;
    assert s[|a|] == '!';
    assert forall i :: 0 <= i < |a| ==> s[i] == a[i] && a[i] in a;
  }

  /** Splitting inverts joining with one '!': the two components come back. */
  lemma SplitJoin(a: string, b: string)
    requires '!' !in a && '!' !in b
    ensures Split(a + "!" + b) == (a, b)
  {
    var s := a + "!" + b;
    FieldEndOfJoin(a, b);
    assert s[..|a|] == a;
    assert s[|a| + 1..] == b;
    SplitWithoutSeparator(b);
    assert b[..FieldEnd(b)] == b;
  }

  /** Everything from the second '!' on is dropped: "a!b!c" gives ("a", "b"). */
  lemma SplitDropsRemainder(a: string, b: string, c: string)
    requires '!' !in a && '!' !in b
    ensures Split(a + "!" + b + "!" + c) == (a, b)
  {
    var s := a + "!" + (b + "!" + c);
    assert s == a + "!" + b + "!" + c;
    FieldEndOfJoin(a, b + "!" + c);
    assert s[..|a|] == a;
    var rest := s[|a| + 1..];
    assert rest == b + "!" + c;
    FieldEndOfJoin(b, c);
    assert rest[..|b|] == b;
  }

  /**
   * The recogniser's verdict carries over to the components: each one is made of
   * import characters other than '!'. (The splitter itself never calls the recogniser.)
   */
  lemma ImportStrComponents(s: string)
    requires IsImportStr(s)
    ensures AllImportChars(Split(s).0) && AllImportChars(Split(s).1)
  {
    var r := Split(s);
    var k := FieldEnd(s);
    assert forall i :: 0 <= i < |r.0| ==> r.0[i] == s[i];
    if k < |s| {
      var rest := s[k + 1..];
      assert forall i :: 0 <= i < |r.1| ==> r.1[i] == rest[i] == s[k + 1 + i];
    }
  }

  /** The examples of the import path syntax. */
  lemma SplitExamples()
    ensures Split("a") == ("a", "")
    ensures Split("a!") == ("a", "")
    ensures Split("a!b") == ("a", "b")
    ensures Split("a!b!c") == ("a", "b")
    ensures Split("") == ("", "")
  {
    SplitWithoutSeparator("a");
    SplitJoin("a", "");
    assert "a" + "!" + "" == "a!";
    SplitJoin("a", "b");
    assert "a" + "!" + "b" == "a!b";
    SplitDropsRemainder("a", "b", "c");
    assert "a" + "!" + "b" + "!" + "c" == "a!b!c";
  }

  /**
   * The assertion on the token count is written with `||`, so it holds for every
   * token count; inputs with three tokens get through it.
   */
  lemma TokenCountAssertionIsVacuous(s: string)
    ensures |Tokens(s)| >= 1 || |Tokens(s)| <= 2
    ensures |Tokens("a!b!c")| == 3
  {
    assert FieldEnd("a!b!c") == 1;
    assert "a!b!c"[2..] == "b!c";
    assert FieldEnd("b!c") == 1;
    assert "b!c"[2..] == "c";
    assert FieldEnd("c") == 1;
  }
}
