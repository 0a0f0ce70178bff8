/** The label formatter: turns a machine field name such as `instance-id`
    into the human-readable title `Instance ID`. */
module Labels {

  /** The characters `fieldNameToLabel` splits on: white space (the Latin-1
      part of `unicode.IsSpace`), hyphen, underscore and period. */
  predicate IsSeparator(c: char)
  {
    c == ' ' || '\t' <= c <= '\r' || c == '\U{85}' || c == '\U{A0}'
    || c == '-' || c == '_' || c == '.'
  }

  /** The three punctuation separators and the common white space split
      a field name; letters and digits never do. */
  lemma SeparatorClass(c: char)
    ensures IsSeparator('-') && IsSeparator('_') && IsSeparator('.')
    ensures IsSeparator(' ') && IsSeparator('\t') && IsSeparator('\n') && IsSeparator('\r')
    ensures ('a' <= c <= 'z' || 'A' <= c <= 'Z' || '0' <= c <= '9') ==> !IsSeparator(c)
  {
  }

  predicate NoSeparator(w: string)
  {
    forall i :: 0 <= i < |w| ==> !IsSeparator(w[i])
  }

  predicate AllSeparators(s: string)
  {
    forall i :: 0 <= i < |s| ==> IsSeparator(s[i])
  }

  /** Length of the run of non-separators that starts `s`. */
  function WordLength(s: string): (n: nat)
    ensures n <= |s|
    ensures NoSeparator(s[..n])
    ensures n < |s| ==> IsSeparator(s[n])
  {
    if s == [] || IsSeparator(s[0]) then 0 else 1 + WordLength(s[1..])
  }

  /** `strings.FieldsFunc` with `IsSeparator`: the maximal runs of
      non-separators, in order; runs of separators only divide them. */
  function Fields(s: string): (fs: seq<string>)
    ensures forall i :: 0 <= i < |fs| ==> fs[i] != [] && NoSeparator(fs[i])
    decreases |s|
  {
    if s == [] then []
    else if IsSeparator(s[0]) then Fields(s[1..])
    else
      var n := WordLength(s);
      [s[..n]] + Fields(s[n..])
  }

  function Concat(ws: seq<string>): string
  {
    if ws == [] then "" else ws[0] + Concat(ws[1..])
  }

  /** `s` with every separator deleted. */
  function RemoveSeparators(s: string): string
  {
    if s == [] then ""
    else if IsSeparator(s[0]) then RemoveSeparators(s[1..])
    else [s[0]] + RemoveSeparators(s[1..])
  }

  lemma {:induction false} RemoveSeparatorsOfWord(w: string, rest: string)
    requires NoSeparator(w)
    ensures RemoveSeparators(w + rest) == w + RemoveSeparators(rest)
  {
    if w != [] {
      var x := w + rest;
      assert x[0] == w[0] && !IsSeparator(w[0]);
      assert x[1..] == w[1..] + rest;
      assert NoSeparator(w[1..]) by {
        forall i | 0 <= i < |w[1..]| ensures !IsSeparator(w[1..][i]) {
          assert w[1..][i] == w[i + 1];
        }
      }
      RemoveSeparatorsOfWord(w[1..], rest);
      assert RemoveSeparators(x) == [w[0]] + (w[1..] + RemoveSeparators(rest));
      assert [w[0]] + (w[1..] + RemoveSeparators(rest)) == ([w[0]] + w[1..]) + RemoveSeparators(rest);
      assert w == [w[0]] + w[1..];
    } else {
      assert w + rest == rest;
    }
  }

  /** The fields hold exactly the non-separator characters of the input, in order. */
  lemma {:induction false} FieldsKeepEverythingElse(s: string)
    ensures Concat(Fields(s)) == RemoveSeparators(s)
    decreases |s|
  {
    if s == [] {
    } else if IsSeparator(s[0]) {
      FieldsKeepEverythingElse(s[1..]);
    } else {
      var n := WordLength(s);
      FieldsKeepEverythingElse(s[n..]);
      assert s == s[..n] + s[n..];
      RemoveSeparatorsOfWord(s[..n], s[n..]);
    }
  }

  /** There are no fields exactly when the input holds only separators
      (the empty input included). */
  lemma {:induction false} FieldsEmpty(s: string)
    ensures Fields(s) == [] <==> AllSeparators(s)
    decreases |s|
  {
    if s != [] && IsSeparator(s[0]) {
      FieldsEmpty(s[1..]);
      if AllSeparators(s[1..]) {
        forall i | 0 <= i < |s| ensures IsSeparator(s[i]) {
          if i > 0 { assert s[i] == s[1..][i - 1]; }
        }
      }
    }
  }

  /** `strings.Join`. */
  function Join(ws: seq<string>, sep: string): string
  {
    if ws == [] then ""
    else if |ws| == 1 then ws[0]
    else ws[0] + sep + Join(ws[1..], sep)
  }

  /** Joining separator-free words with single spaces only adds separators:
      deleting them again leaves the words run together. */
  lemma {:induction false} JoinOnlyAddsSpaces(ws: seq<string>)
    requires forall i :: 0 <= i < |ws| ==> NoSeparator(ws[i])
    ensures RemoveSeparators(Join(ws, " ")) == Concat(ws)
  {
    if ws == [] {
    } else if |ws| == 1 {
      RemoveSeparatorsOfWord(ws[0], "");
      assert ws[0] + "" == ws[0];
      assert Concat(ws) == ws[0] + Concat([]);
    } else {
      var rest := Join(ws[1..], " ");
      assert Join(ws, " ") == ws[0] + (" " + rest);
      RemoveSeparatorsOfWord(ws[0], " " + rest);
      assert (" " + rest)[1..] == rest;
      JoinOnlyAddsSpaces(ws[1..]);
    }
  }

  lemma {:induction false} WordLengthOfWord(w: string, rest: string)
    requires NoSeparator(w)
    requires rest == [] || IsSeparator(rest[0])
    ensures WordLength(w + rest) == |w|
  {
    if w != [] {
      assert (w + rest)[1..] == w[1..] + rest;
      WordLengthOfWord(w[1..], rest);
    }
  }

  /** A word followed by a separator (or by nothing) is the first field. */
  lemma FieldsOfWordThen(w: string, rest: string)
    requires w != [] && NoSeparator(w)
    requires rest == [] || IsSeparator(rest[0])
    ensures Fields(w + rest) == [w] + Fields(rest)
  {
    var s := w + rest;
    WordLengthOfWord(w, rest);
    assert s[..|w|] == w;
    assert s[|w|..] == rest;
  }

  /** Splitting a single-space join of non-empty, separator-free words gives
      the words back. */
  lemma {:induction false} FieldsOfJoin(ws: seq<string>)
    requires forall i :: 0 <= i < |ws| ==> ws[i] != [] && NoSeparator(ws[i])
    ensures Fields(Join(ws, " ")) == ws
  {
    if ws == [] {
    } else if |ws| == 1 {
      FieldsOfWordThen(ws[0], "");
      assert ws[0] + "" == ws[0];
    } else {
      var rest := " " + Join(ws[1..], " ");
      assert Join(ws, " ") == ws[0] + rest;
      FieldsOfWordThen(ws[0], rest);
      assert rest[1..] == Join(ws[1..], " ");
      FieldsOfJoin(ws[1..]);
      assert ws == [ws[0]] + ws[1..];
    }
  }

  /** The keys of the fixed acronym table; a component must equal one exactly
      (the match is case-sensitive). */
  predicate IsAcronym(c: string)
  {
    c == "id" || c == "uri" || c == "url" || c == "gb" || c == "jdbc"
  }

  /** The canonical spelling the table gives each key. */
  function Acronym(c: string): (r: string)
    requires IsAcronym(c)
    ensures r != [] && NoSeparator(r)
    ensures |r| == |c| && forall i :: 0 <= i < |c| ==> r[i] == ToUpper(c[i])
  {
    if c == "id" then "ID"
    else if c == "uri" then "URI"
    else if c == "url" then "URL"
    else if c == "gb" then "GB"
    else "JDBC"
  }

  /** `strings.ToUpper` on one ASCII character. */
  function ToUpper(c: char): (u: char)
    ensures 'a' <= c <= 'z' ==> 'A' <= u <= 'Z' && u as int == c as int - 32
    ensures !('a' <= c <= 'z') ==> u == c
  {
    if 'a' <= c <= 'z' then (c as int - 32) as char else c
  }

  /** The rewrite of one component: an acronym is replaced by its canonical
      spelling, any other component gets its first character upper-cased.
      (Components are never empty; the empty case only makes this total.) */
  function Component(c: string): (r: string)
    ensures IsAcronym(c) ==> r == Acronym(c)
    ensures !IsAcronym(c) && c != [] ==> |r| == |c| && r[0] == ToUpper(c[0]) && r[1..] == c[1..]
    ensures c != [] && NoSeparator(c) ==> r != [] && NoSeparator(r)
  {
    if IsAcronym(c) then Acronym(c)
    else if c == [] then c
    else [ToUpper(c[0])] + c[1..]
  }

  /** Every component rewritten, in order. */
  function Words(cs: seq<string>): (ws: seq<string>)
    ensures |ws| == |cs|
    ensures forall i :: 0 <= i < |cs| ==> ws[i] == Component(cs[i])
  {
    seq(|cs|, i requires 0 <= i < |cs| => Component(cs[i]))
  }

  /** The label of a field name: its rewritten components joined by single spaces. */
  function Label(fieldName: string): string
  {
    Join(Words(Fields(fieldName)), " ")
  }

  /** `fieldNameToLabel`: rewrites the components in place, then joins them. */
  method FieldNameToLabel(fieldName: string) returns (title: string)
    ensures title == Label(fieldName)
    ensures title == "" <==> AllSeparators(fieldName)
  {
    var fields := Fields(fieldName);
    var components := fields;
    var i := 0;
    while i < |components|
      invariant 0 <= i <= |components| == |fields|
      invariant forall j :: 0 <= j < i ==> components[j] == Component(fields[j])
      invariant forall j :: i <= j < |components| ==> components[j] == fields[j]
    {
      var c := components[i];
      if IsAcronym(c) {
        components := components[i := Acronym(c)];
      } else {
        components := components[i := [ToUpper(c[0])] + c[1..]];
      }
      i := i + 1;
    }
    title := Join(components, " ");
    assert components == Words(fields);
    LabelEmpty(fieldName);
  }

  /** The label is empty exactly when the field name has no component. */
  lemma LabelEmpty(fieldName: string)
    ensures Label(fieldName) == "" <==> AllSeparators(fieldName)
  {
    FieldsEmpty(fieldName);
    var ws := Words(Fields(fieldName));
    if ws != [] {
      assert ws[0] != [];
      if |ws| > 1 {
        assert Label(fieldName) == ws[0] + " " + Join(ws[1..], " ");
      }
    }
  }

  /** The label splits back into exactly the rewritten components: single
      spaces between them, no empty pieces. */
  lemma LabelSplitsIntoWords(fieldName: string)
    ensures Fields(Label(fieldName)) == Words(Fields(fieldName))
  {
    FieldsOfJoin(Words(Fields(fieldName)));
  }

  /** Splitting `w1 + [sep] + w2` for two words gives the two words. */
  lemma FieldsOfTwoWords(w1: string, sep: char, w2: string)
    requires w1 != [] && NoSeparator(w1) && w2 != [] && NoSeparator(w2)
    requires IsSeparator(sep)
    ensures Fields(w1 + [sep] + w2) == [w1, w2]
  {
    FieldsOfWordThen(w2, "");
    assert w2 + "" == w2;
    FieldsOfWordThen(w1, [sep] + w2);
    assert ([sep] + w2)[1..] == w2;
    assert w1 + [sep] + w2 == w1 + ([sep] + w2);
  }

  lemma InstanceIdSplits()
    ensures NoSeparator("instance") && NoSeparator("id")
    ensures Fields("instance-id") == ["instance", "id"]
  {
    var first, second := "instance", "id";
    forall i | 0 <= i < |first| ensures !IsSeparator(first[i]) {
      assert 'a' <= first[i] <= 'z';
    }
    assert NoSeparator(second);
    FieldsOfTwoWords(first, '-', second);
    assert "instance-id" == first + ['-'] + second;
  }

  lemma InstanceIdWords()
    ensures Words(["instance", "id"]) == ["Instance", "ID"]
  {
    var first, second := "instance", "id";
    forall i | 0 <= i < |first| ensures !IsSeparator(first[i]) {
      assert 'a' <= first[i] <= 'z';
    }
    assert NoSeparator(second);
    assert Component(first) == "Instance";
  }

  lemma LabelOfInstanceId()
    ensures Label("instance-id") == "Instance ID"
  {
    InstanceIdSplits();
    InstanceIdWords();
    JoinTwo("Instance", "ID");
  }

  lemma JoinTwo(w1: string, w2: string)
    ensures Join([w1, w2], " ") == w1 + " " + w2
  {
    assert [w1, w2][1..] == [w2];
  }

  lemma JdbcUrlSplits()
    ensures NoSeparator("jdbc") && NoSeparator("url")
    ensures Fields("jdbc_url") == ["jdbc", "url"]
  {
    var first, second := "jdbc", "url";
    assert NoSeparator(first) && NoSeparator(second);
    FieldsOfTwoWords(first, '_', second);
    assert "jdbc_url" == first + ['_'] + second;
  }

  lemma JdbcUrlWords()
    ensures Words(["jdbc", "url"]) == ["JDBC", "URL"]
  {
    assert Component("jdbc") == "JDBC";
    assert Component("url") == "URL";
  }

  lemma LabelOfJdbcUrl()
    ensures Label("jdbc_url") == "JDBC URL"
  {
    JdbcUrlSplits();
    JdbcUrlWords();
    JoinTwo("JDBC", "URL");
  }
}
