/**
  * toPascal: snake_case to PascalCase, byte by byte (main.go:139-157).
  *
  * `Pascal` is a specification written independently of the split that
  * `toPascal` in main.go performs: it walks the bytes once, drops every '_'
  * and upper-cases the first byte after the start or after an '_'.
  * `ToPascal` is the Go code's loop over the pieces of strings.Split(s, "_")
  * and is proved to compute `Pascal`.
  */
module PascalCase {
  import opened Bytes
  import Strings

  const Underscore: Byte := '_'

  /** PascalCase of `s`, where `atStart` says whether `s` begins a segment. */
  function PascalFrom(s: Bytes, atStart: bool): Bytes
    decreases |s|
  {
    if s == [] then []
    else if s[0] == Underscore then PascalFrom(s[1..], true)
    else [if atStart then ToUpper(s[0]) else s[0]] + PascalFrom(s[1..], false)
  }

  function Pascal(s: Bytes): Bytes
  {
    PascalFrom(s, true)
  }

  /** The number of '_' bytes in `s`. */
  function Underscores(s: Bytes): nat
  {
    multiset(s)[Underscore]
  }

  /** `toPascal` in main.go: split on '_' and append each non-empty piece, capitalised. */
  method ToPascal(s: Bytes) returns (r: Bytes)
    ensures r == Pascal(s)
  {
    var sb: Bytes := [];
    var parts := Strings.Split(s, [Underscore]);
    for i := 0 to |parts|
      invariant sb == Pascal(Strings.Join(parts[..i], [Underscore]))
    {
      var part := parts[i];
      PascalJoinStep(s, i);
      if part == [] {
        continue;
      }
      var c := part[0];
      if 'a' <= c <= 'z' {
        c := (c as int - 'a' as int + 'A' as int) as char;
      }
      assert c == ToUpper(part[0]);
      ghost var before := sb;
      sb := sb + [c];
      if |part| > 1 {
        sb := sb + part[1..];
      }
      assert sb == before + ([c] + part[1..]);
    }
    assert parts[..|parts|] == parts;
    Strings.SplitJoin(s, [Underscore]);
    r := sb;
  }

  /** One turn of ToPascal's loop appends the PascalCase of the next piece. */
  lemma PascalJoinStep(s: Bytes, i: nat)
    requires i < |Strings.Split(s, [Underscore])|
    ensures var parts := Strings.Split(s, [Underscore]);
            var part := parts[i];
            Underscore !in part &&
            Pascal(Strings.Join(parts[..i + 1], [Underscore]))
            == Pascal(Strings.Join(parts[..i], [Underscore])) + Pascal(part) &&
            Pascal(part) == if part == [] then [] else [ToUpper(part[0])] + part[1..]
  {
    var parts := Strings.Split(s, [Underscore]);
    var part := parts[i];
    Strings.SplitFree(s, [Underscore]);
    Strings.FreeOfOne(part, Underscore);
    assert parts[..i + 1] == parts[..i] + [part];
    Strings.JoinSnoc(parts[..i], part, [Underscore]);
    if i > 0 {
      PascalSplitsAtUnderscore(Strings.Join(parts[..i], [Underscore]), part);
    }
    if part != [] {
      PascalOfWord(part);
    }
  }

  // ---------------------------------------------------------------------
  // Properties of the specification

  lemma {:induction false} PascalFromNoUnderscore(s: Bytes, atStart: bool)
    ensures Underscore !in PascalFrom(s, atStart)
    decreases |s|
  {
    if s != [] {
      PascalFromNoUnderscore(s[1..], true);
      PascalFromNoUnderscore(s[1..], false);
    }
  }

  /** The output holds no separator. */
  lemma PascalNoUnderscore(s: Bytes)
    ensures Underscore !in Pascal(s)
  {
    PascalFromNoUnderscore(s, true);
  }

  lemma {:induction false} PascalFromLength(s: Bytes, atStart: bool)
    ensures |PascalFrom(s, atStart)| == |s| - Underscores(s)
    decreases |s|
  {
    if s != [] {
      assert s == [s[0]] + s[1..];
      assert multiset(s) == multiset([s[0]]) + multiset(s[1..]);
      PascalFromLength(s[1..], true);
      PascalFromLength(s[1..], false);
    }
  }

  /** Every byte other than '_' is emitted exactly once. */
  lemma PascalLength(s: Bytes)
    ensures |Pascal(s)| == |s| - Underscores(s)
  {
    PascalFromLength(s, true);
  }

  lemma {:induction false} PascalFromAppend(a: Bytes, b: Bytes, atStart: bool)
    ensures PascalFrom(a + [Underscore] + b, atStart) == PascalFrom(a, atStart) + Pascal(b)
    decreases |a|
  {
    if a == [] {
      assert [Underscore] + b == a + [Underscore] + b;
      assert (a + [Underscore] + b)[1..] == b;
    } else {
      assert (a + [Underscore] + b)[1..] == a[1..] + [Underscore] + b;
      PascalFromAppend(a[1..], b, true);
      PascalFromAppend(a[1..], b, false);
    }
  }

  /** An '_' cuts the input into two independent halves. */
  lemma PascalSplitsAtUnderscore(a: Bytes, b: Bytes)
    ensures Pascal(a + [Underscore] + b) == Pascal(a) + Pascal(b)
  {
    PascalFromAppend(a, b, true);
  }

  /** Leading, trailing and repeated underscores do not change the result. */
  lemma UnderscoresCollapse(a: Bytes, b: Bytes)
    ensures Pascal([Underscore] + b) == Pascal(b)
    ensures Pascal(a + [Underscore]) == Pascal(a)
    ensures Pascal(a + [Underscore, Underscore] + b) == Pascal(a + [Underscore] + b)
  {
    PascalSplitsAtUnderscore([], b);
    assert [] + [Underscore] + b == [Underscore] + b;
    PascalSplitsAtUnderscore(a, []);
    assert a + [Underscore] + [] == a + [Underscore];
    PascalSplitsAtUnderscore(a, [Underscore] + b);
    assert a + [Underscore] + ([Underscore] + b) == a + [Underscore, Underscore] + b;
    PascalSplitsAtUnderscore(a, b);
  }

  lemma {:induction false} PascalFromPlain(w: Bytes)
    requires Underscore !in w
    ensures PascalFrom(w, false) == w
    decreases |w|
  {
    if w != [] {
      PascalFromPlain(w[1..]);
    }
  }

  /** A segment without '_' keeps every byte except its first, which is upper-cased. */
  lemma PascalOfWord(w: Bytes)
    requires Underscore !in w && w != []
    ensures Pascal(w) == [ToUpper(w[0])] + w[1..]
  {
    PascalFromPlain(w[1..]);
  }

  lemma {:induction false} PascalFromEmpty(s: Bytes, atStart: bool)
    ensures PascalFrom(s, atStart) == [] <==> forall i :: 0 <= i < |s| ==> s[i] == Underscore
    decreases |s|
  {
    if s != [] {
      PascalFromEmpty(s[1..], true);
      if s[0] == Underscore {
        assert forall i :: 1 <= i < |s| ==> s[i] == s[1..][i - 1];
      }
    }
  }

  /** The result is empty exactly when the input is made of underscores only (or is empty). */
  lemma PascalEmpty(s: Bytes)
    ensures Pascal(s) == [] <==> forall i :: 0 <= i < |s| ==> s[i] == Underscore
  {
    PascalFromEmpty(s, true);
  }

  lemma {:induction false} PascalStartsUpper(s: Bytes)
    ensures Pascal(s) != [] ==> !IsLower(Pascal(s)[0])
    decreases |s|
  {
    if s != [] && s[0] == Underscore {
      PascalStartsUpper(s[1..]);
    }
  }

  /** Converting a PascalCase result again changes nothing. */
  lemma PascalIdempotent(s: Bytes)
    ensures Pascal(Pascal(s)) == Pascal(s)
  {
    var u := Pascal(s);
    PascalNoUnderscore(s);
    if u != [] {
      PascalStartsUpper(s);
      PascalOfWord(u);
      assert [ToUpper(u[0])] + u[1..] == u;
    }
  }

  lemma {:induction false} PascalFromKeepsAbsent(s: Bytes, atStart: bool, x: Byte)
    requires x !in s && !IsUpper(x)
    ensures x !in PascalFrom(s, atStart)
    decreases |s|
  {
    if s != [] {
      PascalFromKeepsAbsent(s[1..], true, x);
      PascalFromKeepsAbsent(s[1..], false, x);
    }
  }

  /** A byte that is not an upper-case letter appears in the output only if it appears in the input. */
  lemma PascalKeepsAbsent(s: Bytes, x: Byte)
    requires x !in s && !IsUpper(x)
    ensures x !in Pascal(s)
  {
    PascalFromKeepsAbsent(s, true, x);
  }

  // The rows of the test table in main_test.go, one lemma per row. Each
  // input is written as the concatenation of its words and underscores.

  /** `"hello"` becomes `"Hello"`. */
  lemma ExampleSingleWord()
    ensures Pascal("hello") == "Hello"
  {
    Capitalised("hello", "Hello");
  }

  /** `"hello_world"` becomes `"HelloWorld"`. */
  lemma ExampleTwoWords()
    ensures Pascal("hello" + "_" + "world") == "Hello" + "World"
  {
    var hello: Bytes, world: Bytes := "hello", "world";
    Capitalised(hello, "Hello");
    Capitalised(world, "World");
    PascalSplitsAtUnderscore(hello, world);
  }

  /** `"hello_world_test_case"` becomes `"HelloWorldTestCase"`. */
  lemma ExampleManyWords()
    ensures Pascal("hello" + "_" + "world" + "_" + "test" + "_" + "case")
         == "Hello" + "World" + "Test" + "Case"
  {
    var helloWorld: Bytes, test: Bytes, caseWord: Bytes := "hello" + "_" + "world", "test", "case";
    ExampleTwoWords();
    Capitalised(test, "Test");
    Capitalised(caseWord, "Case");
    PascalSplitsAtUnderscore(helloWorld, test);
    PascalSplitsAtUnderscore(helloWorld + [Underscore] + test, caseWord);
  }

  /** `"_hello_world"` becomes `"HelloWorld"`. */
  lemma ExampleLeadingUnderscore()
    ensures Pascal("_" + "hello" + "_" + "world") == "Hello" + "World"
  {
    ExampleTwoWords();
    UnderscoresCollapse([], "hello" + "_" + "world");
    assert "_" + "hello" + "_" + "world" == [Underscore] + ("hello" + "_" + "world");
  }

  /** `"hello_world_"` becomes `"HelloWorld"`. */
  lemma ExampleTrailingUnderscore()
    ensures Pascal("hello" + "_" + "world" + "_") == "Hello" + "World"
  {
    ExampleTwoWords();
    UnderscoresCollapse("hello" + "_" + "world", []);
  }

  /** `"hello__world"` becomes `"HelloWorld"`. */
  lemma ExampleDoubleUnderscore()
    ensures Pascal("hello" + "__" + "world") == "Hello" + "World"
  {
    ExampleTwoWords();
    UnderscoresCollapse("hello", "world");
  }

  /** `""` and `"___"` both become `""`. */
  lemma ExampleNoWords()
    ensures Pascal("") == ""
    ensures Pascal("___") == ""
  {
    PascalEmpty("___");
  }

  /** `"HelloWorld"` stays `"HelloWorld"`. */
  lemma ExampleAlreadyPascal()
    ensures Pascal("Hello" + "World") == "Hello" + "World"
  {
    Capitalised("Hello" + "World", "Hello" + "World");
  }

  /** `"hello_2_world"` becomes `"Hello2World"`. */
  lemma ExampleDigits()
    ensures Pascal("hello" + "_" + "2" + "_" + "world") == "Hello" + "2" + "World"
  {
    var hello: Bytes, two: Bytes, world: Bytes := "hello", "2", "world";
    Capitalised(hello, "Hello");
    Capitalised(two, "2");
    Capitalised(world, "World");
    PascalSplitsAtUnderscore(hello, two);
    PascalSplitsAtUnderscore(hello + [Underscore] + two, world);
  }

  /** `"Hello_world_Test"` becomes `"HelloWorldTest"`. */
  lemma ExampleMixedCase()
    ensures Pascal("Hello" + "_" + "world" + "_" + "Test") == "Hello" + "World" + "Test"
  {
    var hello: Bytes, world: Bytes, test: Bytes := "Hello", "world", "Test";
    Capitalised(hello, "Hello");
    Capitalised(world, "World");
    Capitalised(test, "Test");
    PascalSplitsAtUnderscore(hello, world);
    PascalSplitsAtUnderscore(hello + [Underscore] + world, test);
  }

  /** `w` is one segment whose PascalCase is `p`. */
  lemma Capitalised(w: Bytes, p: Bytes)
    requires Underscore !in w && w != [] && p != []
    requires p[0] == ToUpper(w[0]) && p[1..] == w[1..]
    ensures Pascal(w) == p
  {
    PascalOfWord(w);
  }
}
