/** JSON-like values as they flow through the broker: parameter payloads,
    descriptor defaults, enumeration keys, constraint values and the schema
    documents built from them. */
module Json {

  datatype Option<+T> = None | Some(value: T)

  /** A decoded JSON/YAML value. `JNull` also stands for Go's nil interface
      value, so a descriptor whose default is `JNull` has no default. */
  datatype JValue =
    | JNull
    | JBool(b: bool)
    | JNum(n: int)
    | JStr(s: string)
    | JObj(fields: map<string, JValue>)
    | JArr(items: seq<JValue>)
  {
    /** Values that can be keys of a Go map (objects and arrays are not hashable). */
    predicate IsScalar() {
      !JObj? && !JArr?
    }
  }

  /** The values that may appear as keys of a descriptor's enumeration. */
  type Scalar = v: JValue | v.IsScalar() witness JNull

  function DigitChar(d: nat): (c: char)
    requires d < 10
    ensures '0' <= c <= '9'
    ensures c as int - '0' as int == d
  {
    ('0' as int + d) as char
  }

  /** Decimal digits of a natural number, most significant first. */
  function NatToString(n: nat): (r: string)
    ensures r != []
    ensures forall i :: 0 <= i < |r| ==> '0' <= r[i] <= '9'
  {
    if n < 10 then [DigitChar(n)] else NatToString(n / 10) + [DigitChar(n % 10)]
  }

  /** The number a string of decimal digits denotes. */
  function DigitsValue(s: string): nat
    requires forall i :: 0 <= i < |s| ==> '0' <= s[i] <= '9'
  {
    if s == [] then 0 else 10 * DigitsValue(s[..|s| - 1]) + (s[|s| - 1] as int - '0' as int)
  }

  /** The digits `NatToString` writes denote the number itself. */
  lemma {:induction false} NatToStringValue(n: nat)
    ensures DigitsValue(NatToString(n)) == n
  {
    if n >= 10 {
      NatToStringValue(n / 10);
      var s := NatToString(n);
      assert s[..|s| - 1] == NatToString(n / 10);
    }
  }

  /** The string form `fmt.Sprintf("%v", v)` gives a scalar. */
  function Display(v: Scalar): string
  {
    if v.JNull? then "<nil>"
    else if v.JBool? then (if v.b then "true" else "false")
    else if v.JNum? then (if v.n < 0 then "-" + NatToString(-v.n) else NatToString(v.n))
    else v.s
  }

  /** What `%v` renders: `<nil>`, `true` or `false`, the signed decimal digits
      of a number, a string as it is. */
  lemma DisplayForms(v: Scalar)
    ensures v.JNull? ==> Display(v) == "<nil>"
    ensures v.JBool? ==> Display(v) == (if v.b then "true" else "false")
    ensures v.JStr? ==> Display(v) == v.s
    ensures v.JNum? && v.n >= 0 ==>
              (forall i :: 0 <= i < |Display(v)| ==> '0' <= Display(v)[i] <= '9') && DigitsValue(Display(v)) == v.n
    ensures v.JNum? && v.n < 0 ==>
              |Display(v)| > 1 && Display(v)[0] == '-' && (forall i :: 1 <= i < |Display(v)| ==> '0' <= Display(v)[i] <= '9')
              && DigitsValue(Display(v)[1..]) == -v.n
  {
    if v.JNum? {
      if v.n < 0 {
        NatToStringValue(-v.n);
        assert Display(v)[1..] == NatToString(-v.n);
      } else {
        NatToStringValue(v.n);
      }
    }
  }

  /** Different numbers have different string forms. */
  lemma DisplayNumInjective(a: int, b: int)
    requires Display(JNum(a)) == Display(JNum(b))
    ensures a == b
  {
    DisplayForms(JNum(a));
    DisplayForms(JNum(b));
  }

  /** Go's `<` on strings. Go compares the UTF-8 bytes; UTF-8 preserves the
      order of code points, so comparing characters gives the same answer. */
  predicate Less(a: string, b: string)
  {
    if a == [] then b != []
    else if b == [] then false
    else if a[0] != b[0] then a[0] < b[0]
    else Less(a[1..], b[1..])
  }

  /** The textbook lexicographic order: `a` is a proper prefix of `b`, or at
      the first position where they differ `a` has the smaller character. */
  ghost predicate Lexicographic(a: string, b: string)
  {
    || (|a| < |b| && a == b[..|a|])
    || exists i :: 0 <= i < |a| && i < |b| && a[..i] == b[..i] && a[i] < b[i]
  }

  /** `Less` is the lexicographic order. */
  lemma {:induction false} LessIsLexicographic(a: string, b: string)
    ensures Less(a, b) <==> Lexicographic(a, b)
  {
    if a == [] {
      assert b != [] ==> a == b[..|a|];
    } else if b == [] {
    } else if a[0] != b[0] {
      if a[0] < b[0] {
        assert a[..0] == b[..0];
      }
    } else {
      var a', b' := a[1..], b[1..];
      LessIsLexicographic(a', b');
      if |a'| < |b'| && a' == b'[..|a'|] {
        assert a == [a[0]] + a' && b[..|a|] == [b[0]] + b'[..|a'|];
      }
      if i :| 0 <= i < |a'| && i < |b'| && a'[..i] == b'[..i] && a'[i] < b'[i] {
        assert a[..i + 1] == [a[0]] + a'[..i] && b[..i + 1] == [b[0]] + b'[..i];
        assert a[i + 1] == a'[i] && b[i + 1] == b'[i];
      }
      if |a| < |b| && a == b[..|a|] {
        assert a' == b'[..|a'|];
      }
      if i :| 0 <= i < |a| && i < |b| && a[..i] == b[..i] && a[i] < b[i] {
        assert i > 0;
        assert a'[..i - 1] == a[..i][1..] && b'[..i - 1] == b[..i][1..];
        assert a'[i - 1] == a[i] && b'[i - 1] == b[i];
      }
    }
  }

  lemma {:induction false} LessIrreflexive(a: string)
    ensures !Less(a, a)
  {
    if a != [] {
      LessIrreflexive(a[1..]);
    }
  }

  lemma {:induction false} LessTransitive(a: string, b: string, c: string)
    requires Less(a, b) && Less(b, c)
    ensures Less(a, c)
  {
    if a != [] && b != [] && c != [] && a[0] == b[0] && b[0] == c[0] {
      LessTransitive(a[1..], b[1..], c[1..]);
    }
  }

  /** Any two different strings are ordered one way or the other. */
  lemma {:induction false} LessTotal(a: string, b: string)
    ensures Less(a, b) || a == b || Less(b, a)
  {
    if a != [] && b != [] && a[0] == b[0] {
      LessTotal(a[1..], b[1..]);
      if a[1..] == b[1..] {
        assert a == [a[0]] + a[1..] && b == [b[0]] + b[1..];
      }
    }
  }
}
