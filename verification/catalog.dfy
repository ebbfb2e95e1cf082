/** The variant catalogue (`server/lib/shopifyCatalog.js`): the normal form
    of titles and option values, the `title|color|size` matching key, the
    size heuristics that sort a variant's options into colour and size, and
    the two first-wins lookups built from the variant listing. */
module Catalog {
  import opened Wrappers
  import opened Seqs
  import opened JsText

  // -------------------------------------------------------------- norm

  /** `trimStart()`, written without the facts `JsText.TrimStart` carries so
      that proofs about normal forms do not pay for them; `StripIsTrim`
      relates the two. */
  function StripStart(s: string): (r: string)
    ensures |r| <= |s|
    ensures |s| > 0 && IsSpace(s[0]) ==> |r| < |s|
  {
    if |s| > 0 && IsSpace(s[0]) then StripStart(s[1..]) else s
  }

  /** `trimEnd()`, in the same way. */
  function StripEnd(s: string): (r: string)
    ensures |r| <= |s|
  {
    if |s| > 0 && IsSpace(s[|s| - 1]) then StripEnd(s[..|s| - 1]) else s
  }

  lemma {:induction false} StripStartIs(s: string)
    ensures StripStart(s) == TrimStart(s)
  {
    if |s| > 0 && IsSpace(s[0]) {
      StripStartIs(s[1..]);
    }
  }

  lemma {:induction false} StripEndIs(s: string)
    ensures StripEnd(s) == TrimEnd(s)
  {
    if |s| > 0 && IsSpace(s[|s| - 1]) {
      StripEndIs(s[..|s| - 1]);
    }
  }

  /** `String(s || "").trim().toLowerCase()` */
  function Folded(s: string): string
  {
    Lower(StripEnd(StripStart(s)))
  }

  lemma FoldedIs(s: string)
    ensures Folded(s) == Lower(Trim(s))
  {
    StripStartIs(s);
    StripEndIs(TrimStart(s));
  }

  /** `.replace(/\s+/g, " ")`: every run of white space becomes one space. */
  function CollapseSpaces(s: string): (r: string)
    ensures |r| <= |s|
    decreases |s|
  {
    if |s| == 0 then ""
    else if IsSpace(s[0]) then " " + CollapseSpaces(StripStart(s))
    else [s[0]] + CollapseSpaces(s[1..])
  }

  /** A text without white space goes through the collapse unchanged. */
  lemma {:induction false} CollapseSpacesNoop(s: string)
    requires forall i :: 0 <= i < |s| ==> !IsSpace(s[i])
    ensures CollapseSpaces(s) == s
  {
    if |s| > 0 {
      CollapseSpacesNoop(s[1..]);
      assert [s[0]] + s[1..] == s;
    }
  }

  /** The collapse brings in no character but the space. */
  lemma {:induction false} CollapseKeeps(s: string, c: char)
    requires c !in s && c != ' '
    ensures c !in CollapseSpaces(s)
    decreases |s|
  {
    if |s| > 0 {
      if IsSpace(s[0]) {
        StripStartIs(s);
        var t := TrimStart(s);
        assert c !in t by { assert t == s[|s| - |t|..]; }
        CollapseKeeps(t, c);
      } else {
        assert c !in s[1..] by { assert s == [s[0]] + s[1..]; }
        CollapseKeeps(s[1..], c);
      }
    }
  }

  /** The character class `[â€™']` as the file spells it: the three
      characters of a mis-decoded right quotation mark and the ASCII
      apostrophe. */
  predicate IsQuoteLike(c: char)
  {
    c == '\U{00E2}' || c == '\U{20AC}' || c == '\U{2122}' || c == '\''
  }

  function QuoteChar(c: char): char
  {
    if IsQuoteLike(c) then '\'' else c
  }

  /** `.replace(/[â€™']/g, "'")` */
  function Quotes(s: string): (r: string)
    ensures |r| == |s|
  {
    seq(|s|, i requires 0 <= i < |s| => QuoteChar(s[i]))
  }

  predicate IsDash(c: char) { c == '_' || c == '-' }

  /** The text after its leading run of `_` and `-`. */
  function SkipDashes(s: string): (r: string)
    ensures |r| <= |s|
    ensures |s| > 0 && IsDash(s[0]) ==> |r| < |s|
  {
    if |s| > 0 && IsDash(s[0]) then SkipDashes(s[1..]) else s
  }

  /** What `SkipDashes` leaves is a suffix that starts with no dash. */
  lemma {:induction false} SkipDashesSuffix(s: string)
    ensures var r := SkipDashes(s); r == s[|s| - |r|..] && (|r| == 0 || !IsDash(r[0]))
  {
    if |s| > 0 && IsDash(s[0]) {
      SkipDashesSuffix(s[1..]);
    }
  }

  /** `.replace(/[_-]+/g, " ")`: every run of `_` and `-` becomes one space. */
  function Undash(s: string): (r: string)
    decreases |s|
  {
    if |s| == 0 then ""
    else if IsDash(s[0]) then " " + Undash(SkipDashes(s))
    else [s[0]] + Undash(s[1..])
  }

  /** No `_` or `-` survives `Undash`. */
  lemma {:induction false} UndashNoDash(s: string)
    ensures forall i :: 0 <= i < |Undash(s)| ==> !IsDash(Undash(s)[i])
    decreases |s|
  {
    if |s| > 0 {
      if IsDash(s[0]) {
        SkipDashesSuffix(s);
        UndashNoDash(SkipDashes(s));
      } else {
        UndashNoDash(s[1..]);
      }
    }
  }

  /** `Undash` brings in no character but the space. */
  lemma {:induction false} UndashKeeps(s: string, c: char)
    requires c !in s && c != ' '
    ensures c !in Undash(s)
    decreases |s|
  {
    if |s| > 0 {
      if IsDash(s[0]) {
        var t := SkipDashes(s);
        SkipDashesSuffix(s);
        assert c !in t by { assert t == s[|s| - |t|..]; }
        UndashKeeps(t, c);
      } else {
        assert c !in s[1..] by { assert s == [s[0]] + s[1..]; }
        UndashKeeps(s[1..], c);
      }
    }
  }

  /** A text without `_` and `-` goes through `Undash` unchanged. */
  lemma {:induction false} UndashNoop(s: string)
    requires forall i :: 0 <= i < |s| ==> !IsDash(s[i])
    ensures Undash(s) == s
  {
    if |s| > 0 {
      UndashNoop(s[1..]);
      assert [s[0]] + s[1..] == s;
    }
  }

  /** `norm(s)`: trim, lower-case, one space per white-space run, the quote
      characters as `'`, and one space per run of `_`/`-`. */
  function Norm(s: string): string
  {
    Undash(Quotes(CollapseSpaces(Folded(s))))
  }

  /** The normal form holds no `_` or `-`. */
  lemma NormNoDash(s: string)
    ensures forall i :: 0 <= i < |Norm(s)| ==> !IsDash(Norm(s)[i])
  {
    UndashNoDash(Quotes(CollapseSpaces(Folded(s))));
  }

  /** The normal form of a text without `|` holds no `|`. */
  lemma NormKeepsBar(s: string)
    requires '|' !in s
    ensures '|' !in Norm(s)
  {
    FoldedKeepsBar(s);
    var a := Folded(s);
    CollapseKeeps(a, '|');
    var b := CollapseSpaces(a);
    var q := Quotes(b);
    assert '|' !in q by {
      forall i | 0 <= i < |q| ensures q[i] != '|' {
        assert q[i] == QuoteChar(b[i]);
      }
    }
    UndashKeeps(q, '|');
  }

  lemma FoldedKeepsBar(s: string)
    requires '|' !in s
    ensures '|' !in Folded(s)
  {
    FoldedIs(s);
    TrimKeepsOut(s, '|');
    LowerKeepsOut(Trim(s), '|');
  }

  /** A text already in normal form is its own normal form: trimmed, no
      upper-case ASCII letter, no white space but single spaces, no quote
      character other than `'`, and no `_` or `-`. */
  predicate IsNormal(s: string)
  {
    && IsTrimmed(s)
    && (forall i :: 0 <= i < |s| ==> !('A' <= s[i] <= 'Z'))
    && (forall i :: 0 <= i < |s| ==> !IsSpace(s[i]) || s[i] == ' ')
    && (forall i :: 0 <= i < |s| - 1 ==> !(s[i] == ' ' && s[i + 1] == ' '))
    && (forall i :: 0 <= i < |s| ==> !IsQuoteLike(s[i]) || s[i] == '\'')
    && (forall i :: 0 <= i < |s| ==> !IsDash(s[i]))
  }

  lemma {:induction false} CollapseSingleSpaces(s: string)
    requires forall i :: 0 <= i < |s| ==> !IsSpace(s[i]) || s[i] == ' '
    requires forall i :: 0 <= i < |s| - 1 ==> !(s[i] == ' ' && s[i + 1] == ' ')
    ensures CollapseSpaces(s) == s
  {
    if |s| > 0 {
      if IsSpace(s[0]) {
        StripStartIs(s);
        var t := TrimStart(s);
        if |s| > 1 {
          assert !IsSpace(s[1]);
          assert t == s[1..];
        } else {
          assert t == s[1..];
        }
        CollapseSingleSpaces(t);
      } else {
        CollapseSingleSpaces(s[1..]);
        assert [s[0]] + s[1..] == s;
      }
    }
  }

  lemma NormOfNormal(s: string)
    requires IsNormal(s)
    ensures Norm(s) == s
  {
    TrimSpec(s);
    FoldedIs(s);
    assert Lower(Trim(s)) == s;
    CollapseSingleSpaces(s);
    assert Quotes(s) == s;
    UndashNoop(s);
  }

  /** `norm` is not idempotent: a dash between spaces becomes a space of its
      own, so the first pass leaves three spaces that a second pass
      collapses into one. */
  lemma NormNotIdempotent()
    ensures Norm("a _ b") == "a   b"
    ensures Norm("a   b") == "a b"
  {
    NormOnce();
    NormTwice();
  }

  lemma NormOnce()
    ensures Norm("a _ b") == "a   b"
  {
    var s := "a _ b";
    FoldedOnce();
    CollapseOnce();
    assert Quotes(s) == s;
    UndashOnce();
  }

  lemma FoldedOnce()
    ensures Folded("a _ b") == "a _ b"
  {
    var s := "a _ b";
    assert StripStart(s) == s;
    assert StripEnd(s) == s;
    assert Lower(s) == s;
  }

  lemma CollapseOnce()
    ensures CollapseSpaces("a _ b") == "a _ b"
  {
    var s := "a _ b";
    var s1, s2, s3, s4 := s[1..], s[2..], s[3..], s[4..];
    assert StripStart(s4) == s4;
    assert CollapseSpaces(s4) == s4 by { CollapseSpacesNoop(s4); }
    assert StripStart(s3) == s4;
    assert CollapseSpaces(s3) == " b";
    assert CollapseSpaces(s2) == "_ b";
    assert StripStart(s1) == s2;
    assert CollapseSpaces(s1) == " _ b";
  }

  lemma UndashOnce()
    ensures Undash("a _ b") == "a   b"
  {
    var s := "a _ b";
    var s1, s2, s3 := s[1..], s[2..], s[3..];
    assert Undash(s3) == s3 by { UndashNoop(s3); }
    assert SkipDashes(s2) == s3;
    assert Undash(s2) == "  b";
    assert Undash(s1) == "   b";
  }

  lemma NormTwice()
    ensures Norm("a   b") == "a b"
  {
    var c := "a b";
    FoldedTwice();
    CollapseTwice();
    assert Quotes(c) == c;
    UndashNoop(c);
  }

  lemma FoldedTwice()
    ensures Folded("a   b") == "a   b"
  {
    var s := "a   b";
    assert StripStart(s) == s;
    assert StripEnd(s) == s;
    assert Lower(s) == s;
  }

  lemma CollapseTwice()
    ensures CollapseSpaces("a   b") == "a b"
  {
    var s := "a   b";
    var s1, s4 := s[1..], s[4..];
    assert StripStart(s[3..]) == s4;
    assert StripStart(s[2..]) == s4;
    assert StripStart(s1) == s4;
    assert CollapseSpaces(s4) == s4 by { CollapseSpacesNoop(s4); }
  }

  // --------------------------------------------------------------- key

  /** `makeKey(title, color, size)` */
  function MakeKey(title: string, color: string, size: string): string
  {
    Norm(title) + "|" + Norm(color) + "|" + Norm(size)
  }

  /** The key splits back into its three normalised parts when none of the
      parts holds a `|`. */
  lemma KeySplit(title: string, color: string, size: string)
    requires '|' !in title && '|' !in color && '|' !in size
    ensures Split(MakeKey(title, color, size), '|') == [Norm(title), Norm(color), Norm(size)]
  {
    var t, c, s := Norm(title), Norm(color), Norm(size);
    NormKeepsBar(title);
    NormKeepsBar(color);
    NormKeepsBar(size);
    assert MakeKey(title, color, size) == t + ['|'] + (c + ['|'] + s);
    SplitAtSep(t, '|', c + ['|'] + s);
    SplitAtSep(c, '|', s);
    SplitNoSep(s, '|');
  }

  /** Two rows meet at one key exactly when their three parts agree after
      normalisation (for parts without `|`). */
  lemma KeyIff(t1: string, c1: string, s1: string, t2: string, c2: string, s2: string)
    requires '|' !in t1 && '|' !in c1 && '|' !in s1
    requires '|' !in t2 && '|' !in c2 && '|' !in s2
    ensures MakeKey(t1, c1, s1) == MakeKey(t2, c2, s2) <==>
      Norm(t1) == Norm(t2) && Norm(c1) == Norm(c2) && Norm(s1) == Norm(s2)
  {
    KeySplit(t1, c1, s1);
    KeySplit(t2, c2, s2);
  }

  // -------------------------------------------------------------- sizes

  const SizeSet: set<string> := {
    "xxxs", "xxs", "xs", "s", "m", "l", "xl", "xxl", "xxxl",
    "0", "1", "2", "3", "4", "5", "6", "7", "8", "9", "10"
  }

  const SizeWords: set<string> := {"xs", "s", "m", "l", "xl", "xxl", "xxxl"}

  /** `/^(xs|s|m|l|xl|xxl|xxxl)(\/(xs|s|m|l|xl|xxl|xxxl))+$/i` on the raw
      value: two or more size words joined by `/`, in either case. */
  predicate SlashSizes(v: string)
  {
    var parts := Split(Lower(v), '/');
    |parts| >= 2 && forall i :: 0 <= i < |parts| ==> parts[i] in SizeWords
  }

  predicate OneOrTwoDigits(s: string)
  {
    1 <= |s| <= 2 && AllDigits(s)
  }

  /** `/^\d{1,2}(\.\d)?$/` */
  predicate SmallNumber(x: string)
  {
    || OneOrTwoDigits(x)
    || (|x| >= 3 && x[|x| - 2] == '.' && IsDigit(x[|x| - 1]) && OneOrTwoDigits(x[..|x| - 2]))
  }

  /** `/^\d{1,2}\s*-\s*\d{1,2}$/` */
  predicate RangeForm(x: string)
  {
    var parts := Split(x, '-');
    |parts| == 2 && OneOrTwoDigits(StripEnd(parts[0])) && OneOrTwoDigits(StripStart(parts[1]))
  }

  /** `/^(eu|us|uk)\s*\d{1,2}(\.\d)?$/` */
  predicate PrefixedNumber(x: string)
  {
    |x| >= 2 && (x[..2] == "eu" || x[..2] == "us" || x[..2] == "uk") && SmallNumber(StripStart(x[2..]))
  }

  /** `looksLikeSize(v)` as the file has it: every test but the slash form
      reads the normal form, in which no `-` is left. */
  predicate LooksLikeSizeAsWritten(v: string)
  {
    var x := Norm(v);
    x != "" && (x in SizeSet || SlashSizes(v) || SmallNumber(x) || RangeForm(x) || PrefixedNumber(x))
  }

  /** `looksLikeSize(v)` with the range test reading the trimmed,
      lower-cased value, where the `-` of "32-34" is still present. */
  predicate LooksLikeSize(v: string)
  {
    var x := Norm(v);
    x != "" && (x in SizeSet || SlashSizes(v) || SmallNumber(x) || RangeForm(Folded(v)) || PrefixedNumber(x))
  }

  /** The range test of the file can never succeed. */
  lemma RangeDeadAsWritten(v: string)
    ensures !RangeForm(Norm(v))
    ensures LooksLikeSizeAsWritten(v) <==>
      var x := Norm(v); x != "" && (x in SizeSet || SlashSizes(v) || SmallNumber(x) || PrefixedNumber(x))
  {
    var x := Norm(v);
    NormNoDash(v);
    assert '-' !in x;
    SplitNoSep(x, '-');
  }

  /** The corrected test accepts every value the file's test accepts. */
  lemma LooksLikeSizeWidens(v: string)
    ensures LooksLikeSizeAsWritten(v) ==> LooksLikeSize(v)
    ensures LooksLikeSize(v) && !RangeForm(Folded(v)) ==> LooksLikeSizeAsWritten(v)
  {
    RangeDeadAsWritten(v);
  }

  /** The range "32-34" of the file's own comment: the file's test rejects
      it, the corrected one accepts it. */
  lemma RangeExample()
    ensures !LooksLikeSizeAsWritten("32-34")
    ensures LooksLikeSize("32-34")
  {
    RangeNorm();
    RangeNoSlash();
    RangeNormNotSize();
    RangeDeadAsWritten("32-34");
    RangeAccepted();
  }

  /** "32 34" passes none of the tests that read the normal form. */
  lemma RangeNormNotSize()
    ensures var x := "32 34"; !(x in SizeSet || SmallNumber(x) || PrefixedNumber(x))
  {
    var x := "32 34";
    assert forall w :: w in SizeSet ==> |w| <= 4;
    assert !SmallNumber(x) by { assert x[3] != '.'; }
    assert !PrefixedNumber(x) by { assert x[..2] == "32"; }
  }

  lemma RangeFolded()
    ensures Folded("32-34") == "32-34"
  {
    var v := "32-34";
    assert StripStart(v) == v;
    assert StripEnd(v) == v;
    assert Lower(v) == v;
  }

  lemma RangeNorm()
    ensures Norm("32-34") == "32 34"
  {
    RangeFolded();
    RangeCollapsed();
    RangeQuotes();
    RangeUndash();
  }

  lemma RangeCollapsed()
    ensures CollapseSpaces("32-34") == "32-34"
  {
    CollapseSpacesNoop("32-34");
  }

  lemma RangeQuotes()
    ensures Quotes("32-34") == "32-34"
  {
    var v := "32-34";
    assert forall i :: 0 <= i < |v| ==> QuoteChar(v[i]) == v[i];
  }

  lemma RangeUndash()
    ensures Undash("32-34") == "32 34"
  {
    var v := "32-34";
    var w := v[3..];
    UndashNoop(w);
    assert SkipDashes(v[2..]) == w;
    assert Undash(v[1..]) == "2 34";
  }

  lemma RangeNoSlash()
    ensures !SlashSizes("32-34")
  {
    assert Lower("32-34") == "32-34";
    SplitNoSep("32-34", '/');
  }

  lemma RangeAccepted()
    ensures RangeForm(Folded("32-34"))
  {
    RangeFolded();
    var a, b := "32", "34";
    assert "32-34" == a + ['-'] + b;
    SplitAtSep(a, '-', b);
    SplitNoSep(b, '-');
    assert StripEnd(a) == a;
    assert StripStart(b) == b;
  }

  // ------------------------------------------------------------ options

  /** A selected option `{ name, value }` after `String(... || "")`. */
  datatype Opt = Opt(name: string, value: string)

  function ValueOf(o: Opt): string { o.value }

  /** `pickOptionValue`'s test: the option's name normalises to one of the
      normalised aliases. */
  predicate IsAlias(aliases: seq<string>, name: string)
  {
    Norm(name) in Map(aliases, Norm)
  }

  /** `pickOptionValue(opts, aliases)`: the value of the first option whose
      name is one of the aliases, or "" when none is. */
  function PickOption(opts: seq<Opt>, aliases: seq<string>): (r: string)
    ensures (forall i :: 0 <= i < |opts| ==> !IsAlias(aliases, opts[i].name)) ==> r == ""
    ensures forall i :: (0 <= i < |opts| && IsAlias(aliases, opts[i].name)
      && forall j :: 0 <= j < i ==> !IsAlias(aliases, opts[j].name)) ==> r == opts[i].value
  {
    FirstOr(opts, (o: Opt) => IsAlias(aliases, o.name), ValueOf, "")
  }

  const ColorAliases: seq<string> := ["color", "colour", "colors", "colours"]
  const SizeAliases: seq<string> := ["size", "sizes"]
  const FabricAliases: seq<string> := ["fabric", "material"]

  datatype ColorSize = ColorSize(color: string, size: string)

  /** The inference below takes its size test as a parameter `isSize`:
      `LooksLikeSizeAsWritten` is the file's test, `LooksLikeSize` the
      corrected one that also accepts ranges such as "32-34".

      The test of the colour search: a non-empty value that is neither the
      fabric (compared in normal form) nor size-like. */
  predicate ColorCandidate(isSize: string -> bool, o: Opt, fabric: string)
  {
    o.value != "" && !(fabric != "" && Norm(o.value) == Norm(fabric)) && !isSize(o.value)
  }

  predicate SizeCandidate(isSize: string -> bool, o: Opt)
  {
    isSize(o.value)
  }

  /** Steps 1 and 2 of `inferColorSize`: the named colour and size, swapped
      when only the colour looks like a size. */
  function Named(isSize: string -> bool, opts: seq<Opt>): ColorSize
  {
    var color := PickOption(opts, ColorAliases);
    var size := PickOption(opts, SizeAliases);
    if color != "" && size != "" && isSize(color) && !isSize(size)
    then ColorSize(size, color)
    else ColorSize(color, size)
  }

  /** Step 3 for the size: the first size-like value, or "" when there is
      none. */
  function FoundSize(isSize: string -> bool, opts: seq<Opt>): (r: string)
    ensures (forall i :: 0 <= i < |opts| ==> !SizeCandidate(isSize, opts[i])) ==> r == ""
    ensures forall i :: (0 <= i < |opts| && SizeCandidate(isSize, opts[i])
      && forall j :: 0 <= j < i ==> !SizeCandidate(isSize, opts[j])) ==> r == opts[i].value
  {
    FirstOr(opts, (o: Opt) => SizeCandidate(isSize, o), ValueOf, "")
  }

  /** Step 3 for the colour: the first value that is non-empty, not the
      fabric and not size-like, or "" when there is none. */
  function FoundColor(isSize: string -> bool, opts: seq<Opt>, fabric: string): (r: string)
    ensures (forall i :: 0 <= i < |opts| ==> !ColorCandidate(isSize, opts[i], fabric)) ==> r == ""
    ensures forall i :: (0 <= i < |opts| && ColorCandidate(isSize, opts[i], fabric)
      && forall j :: 0 <= j < i ==> !ColorCandidate(isSize, opts[j], fabric)) ==> r == opts[i].value
  {
    FirstOr(opts, (o: Opt) => ColorCandidate(isSize, o, fabric), ValueOf, "")
  }

  /** `inferColorSize(selectedOptions)`, with the size test `isSize`. */
  function InferColorSize(isSize: string -> bool, opts: seq<Opt>): (r: ColorSize)
    ensures IsTrimmed(r.color) && IsTrimmed(r.size)
  {
    var named := Named(isSize, opts);
    var size := if named.size != "" then named.size else FoundSize(isSize, opts);
    var color := if named.color != "" then named.color else FoundColor(isSize, opts, PickOption(opts, FabricAliases));
    TrimSpec(color);
    TrimSpec(size);
    ColorSize(Trim(color), Trim(size))
  }

  /** With both a colour and a size option named, the two are kept, or
      swapped when only the colour looks like a size. */
  lemma InferNamed(isSize: string -> bool, opts: seq<Opt>)
    ensures var color, size := PickOption(opts, ColorAliases), PickOption(opts, SizeAliases);
      color != "" && size != "" ==>
        InferColorSize(isSize, opts) == if isSize(color) && !isSize(size)
                                   then ColorSize(Trim(size), Trim(color))
                                   else ColorSize(Trim(color), Trim(size))
  {
  }

  /** Without a named size, the size is the first size-like value. */
  lemma InferSize(isSize: string -> bool, opts: seq<Opt>, i: nat)
    requires Named(isSize, opts).size == ""
    ensures (forall k :: 0 <= k < |opts| ==> !SizeCandidate(isSize, opts[k])) ==> InferColorSize(isSize, opts).size == ""
    ensures (i < |opts| && SizeCandidate(isSize, opts[i]) && forall j :: 0 <= j < i ==> !SizeCandidate(isSize, opts[j])) ==>
      InferColorSize(isSize, opts).size == Trim(opts[i].value)
  {
  }

  /** Without a named colour, the colour is the first non-empty value that
      is neither the fabric nor size-like. */
  lemma InferColor(isSize: string -> bool, opts: seq<Opt>, i: nat)
    requires Named(isSize, opts).color == ""
    ensures var fabric := PickOption(opts, FabricAliases);
      (forall k :: 0 <= k < |opts| ==> !ColorCandidate(isSize, opts[k], fabric)) ==> InferColorSize(isSize, opts).color == ""
    ensures var fabric := PickOption(opts, FabricAliases);
      (i < |opts| && ColorCandidate(isSize, opts[i], fabric) && forall j :: 0 <= j < i ==> !ColorCandidate(isSize, opts[j], fabric)) ==>
        InferColorSize(isSize, opts).color == Trim(opts[i].value)
  {
    UnnamedColor(isSize, opts);
  }

  lemma UnnamedColor(isSize: string -> bool, opts: seq<Opt>)
    requires Named(isSize, opts).color == ""
    ensures InferColorSize(isSize, opts).color == Trim(FoundColor(isSize, opts, PickOption(opts, FabricAliases)))
  {
  }

  /** The colour and the size are "" or the trimmed value of an option. */
  lemma InferFromOptions(isSize: string -> bool, opts: seq<Opt>)
    ensures var r := InferColorSize(isSize, opts); var values := Map(opts, (o: Opt) => Trim(o.value));
      (r.color == "" || r.color in values) && (r.size == "" || r.size in values)
  {
    var fabric := PickOption(opts, FabricAliases);
    var c := FirstValueIn(opts, (o: Opt) => IsAlias(ColorAliases, o.name));
    var z := FirstValueIn(opts, (o: Opt) => IsAlias(SizeAliases, o.name));
    var fz := FirstValueIn(opts, (o: Opt) => SizeCandidate(isSize, o));
    var fc := FirstValueIn(opts, (o: Opt) => ColorCandidate(isSize, o, fabric));
    assert Trim("") == "";
    var named := Named(isSize, opts);
    assert c == PickOption(opts, ColorAliases) && z == PickOption(opts, SizeAliases);
    assert named.color == c || named.color == z;
    assert named.size == c || named.size == z;
    var size := if named.size != "" then named.size else fz;
    var color := if named.color != "" then named.color else fc;
    assert InferColorSize(isSize, opts) == ColorSize(Trim(color), Trim(size));
  }

  /** The corrected test changes the inference only where a value is a
      range: with no option value of the form "32-34", both tests sort the
      options alike. */
  lemma InferAgreesWithoutRanges(opts: seq<Opt>)
    requires forall i :: 0 <= i < |opts| ==> !RangeForm(Folded(opts[i].value))
    ensures InferColorSize(LooksLikeSizeAsWritten, opts) == InferColorSize(LooksLikeSize, opts)
  {
    forall i | 0 <= i < |opts| ensures LooksLikeSizeAsWritten(opts[i].value) == LooksLikeSize(opts[i].value) {
      LooksLikeSizeWidens(opts[i].value);
    }
    InferSameTests(LooksLikeSizeAsWritten, LooksLikeSize, opts);
  }

  /** Two size tests that agree on every option value infer alike. */
  lemma InferSameTests(p: string -> bool, q: string -> bool, opts: seq<Opt>)
    requires forall i :: 0 <= i < |opts| ==> p(opts[i].value) == q(opts[i].value)
    ensures InferColorSize(p, opts) == InferColorSize(q, opts)
  {
    FoundSameTests(p, q, opts, PickOption(opts, FabricAliases));
    NamedSameTests(p, q, opts);
  }

  lemma FoundSameTests(p: string -> bool, q: string -> bool, opts: seq<Opt>, fabric: string)
    requires forall i :: 0 <= i < |opts| ==> p(opts[i].value) == q(opts[i].value)
    ensures FoundSize(p, opts) == FoundSize(q, opts)
    ensures FoundColor(p, opts, fabric) == FoundColor(q, opts, fabric)
  {
    FirstOrSame(opts, (o: Opt) => SizeCandidate(p, o), (o: Opt) => SizeCandidate(q, o));
    FirstOrSame(opts, (o: Opt) => ColorCandidate(p, o, fabric), (o: Opt) => ColorCandidate(q, o, fabric));
  }

  lemma NamedSameTests(p: string -> bool, q: string -> bool, opts: seq<Opt>)
    requires forall i :: 0 <= i < |opts| ==> p(opts[i].value) == q(opts[i].value)
    ensures Named(p, opts) == Named(q, opts)
  {
    var i := PickedIndex(opts, ColorAliases);
    var k := PickedIndex(opts, SizeAliases);
  }

  /** A non-empty picked value is the value of some option. */
  lemma PickedIndex(opts: seq<Opt>, aliases: seq<string>) returns (i: nat)
    ensures PickOption(opts, aliases) != "" ==> i < |opts| && PickOption(opts, aliases) == opts[i].value
  {
    i := 0;
    var c := FirstOr(opts, (o: Opt) => IsAlias(aliases, o.name), ValueOf, "");
    assert c == PickOption(opts, aliases);
    if c != "" {
      i :| 0 <= i < |opts| && c == ValueOf(opts[i]);
    }
  }

  /** Two tests that agree on every option pick the same first value. */
  lemma {:induction false} FirstOrSame(opts: seq<Opt>, p: Opt -> bool, q: Opt -> bool)
    requires forall i :: 0 <= i < |opts| ==> p(opts[i]) == q(opts[i])
    ensures FirstOr(opts, p, ValueOf, "") == FirstOr(opts, q, ValueOf, "")
  {
    match FindFirst(opts, p)
    case None =>
    case Some(i) => assert q(opts[i]);
  }

  /** The finding on the range test carried through the inference: options
      that name the colour "32-34" and the size "Red" are kept as named by
      the file's test and swapped by the corrected one. */
  lemma InferRangeSwap(opts: seq<Opt>)
    requires PickOption(opts, ColorAliases) == "32-34" && PickOption(opts, SizeAliases) == "Red"
    ensures InferColorSize(LooksLikeSizeAsWritten, opts) == ColorSize("32-34", "Red")
    ensures InferColorSize(LooksLikeSize, opts) == ColorSize("Red", "32-34")
  {
    RangeRedFacts();
    SwapOnlyCorrected(opts, "32-34", "Red");
  }

  lemma RangeRedFacts()
    ensures !LooksLikeSizeAsWritten("32-34") && LooksLikeSize("32-34") && IsTrimmed("32-34")
    ensures !LooksLikeSizeAsWritten("Red") && !LooksLikeSize("Red") && IsTrimmed("Red")
  {
    RangeExample();
    RedNotSize();
  }

  /** Named values `c` and `z`, with `c` size-like only under the corrected
      test and `z` under neither: only the corrected test swaps them. */
  lemma SwapOnlyCorrected(opts: seq<Opt>, c: string, z: string)
    requires PickOption(opts, ColorAliases) == c && PickOption(opts, SizeAliases) == z
    requires c != "" && z != "" && IsTrimmed(c) && IsTrimmed(z)
    requires !LooksLikeSizeAsWritten(c) && LooksLikeSize(c)
    requires !LooksLikeSizeAsWritten(z) && !LooksLikeSize(z)
    ensures InferColorSize(LooksLikeSizeAsWritten, opts) == ColorSize(c, z)
    ensures InferColorSize(LooksLikeSize, opts) == ColorSize(z, c)
  {
    TrimSpec(c);
    TrimSpec(z);
    InferNamed(LooksLikeSizeAsWritten, opts);
    InferNamed(LooksLikeSize, opts);
  }

  /** A lone option "32-34" under a name that is neither a colour, a size
      nor a fabric alias: the file's test takes it as the colour, the
      corrected one as the size. */
  lemma InferRangeUnnamed(o: Opt)
    requires o.value == "32-34"
    requires !IsAlias(ColorAliases, o.name) && !IsAlias(SizeAliases, o.name) && !IsAlias(FabricAliases, o.name)
    ensures InferColorSize(LooksLikeSizeAsWritten, [o]) == ColorSize("32-34", "")
    ensures InferColorSize(LooksLikeSize, [o]) == ColorSize("", "32-34")
  {
    RangeRedFacts();
    LoneOnlyCorrected(o, "32-34");
  }

  /** A lone unnamed value `v` that is size-like only under the corrected
      test is the colour under the file's test and the size under the
      corrected one. */
  lemma LoneOnlyCorrected(o: Opt, v: string)
    requires o.value == v && v != "" && IsTrimmed(v)
    requires !IsAlias(ColorAliases, o.name) && !IsAlias(SizeAliases, o.name) && !IsAlias(FabricAliases, o.name)
    requires !LooksLikeSizeAsWritten(v) && LooksLikeSize(v)
    ensures InferColorSize(LooksLikeSizeAsWritten, [o]) == ColorSize(v, "")
    ensures InferColorSize(LooksLikeSize, [o]) == ColorSize("", v)
  {
    TrimSpec(v);
    LoneUnnamed(LooksLikeSizeAsWritten, o);
    LoneUnnamed(LooksLikeSize, o);
  }

  /** A lone option under no alias is the size when it is size-like and
      otherwise the colour. */
  lemma LoneUnnamed(isSize: string -> bool, o: Opt)
    requires !IsAlias(ColorAliases, o.name) && !IsAlias(SizeAliases, o.name) && !IsAlias(FabricAliases, o.name)
    ensures isSize(o.value) ==> InferColorSize(isSize, [o]) == ColorSize("", Trim(o.value))
    ensures !isSize(o.value) ==> InferColorSize(isSize, [o]) == ColorSize(Trim(o.value), "")
  {
    LoneNoAlias(isSize, o);
    LoneSize(isSize, o);
    LoneColor(isSize, o);
  }

  lemma LoneNoAlias(isSize: string -> bool, o: Opt)
    requires !IsAlias(ColorAliases, o.name) && !IsAlias(SizeAliases, o.name) && !IsAlias(FabricAliases, o.name)
    ensures Named(isSize, [o]) == ColorSize("", "") && PickOption([o], FabricAliases) == ""
  {
  }

  lemma LoneSize(isSize: string -> bool, o: Opt)
    requires Named(isSize, [o]) == ColorSize("", "")
    ensures isSize(o.value) ==> InferColorSize(isSize, [o]).size == Trim(o.value)
    ensures !isSize(o.value) ==> InferColorSize(isSize, [o]).size == ""
  {
    InferSize(isSize, [o], 0);
  }

  lemma LoneColor(isSize: string -> bool, o: Opt)
    requires Named(isSize, [o]) == ColorSize("", "") && PickOption([o], FabricAliases) == ""
    ensures InferColorSize(isSize, [o]).color == if o.value != "" && !isSize(o.value) then Trim(o.value) else ""
  {
    InferColor(isSize, [o], 0);
  }

  /** "Red" is not size-like under either test. */
  lemma RedNotSize()
    ensures !LooksLikeSizeAsWritten("Red") && !LooksLikeSize("Red")
  {
    NormWord("Red", "red");
    RedTests();
  }

  lemma RedTests()
    ensures !("red" in SizeSet || SlashSizes("Red") || SmallNumber("red") || RangeForm("red") || PrefixedNumber("red"))
  {
    assert Lower("Red") == "red";
    SplitNoSep("red", '/');
    SplitNoSep("red", '-');
    assert !SmallNumber("red") by { assert !IsDigit('d'); }
    assert !PrefixedNumber("red") by { assert "red"[..2] == "re"; }
  }

  /** A word of letters whose lower-case form is `w` has `w` as its normal
      form. */
  lemma NormWord(s: string, w: string)
    requires |s| == |w| > 0
    requires forall i :: 0 <= i < |s| ==> ('a' <= s[i] <= 'z' || 'A' <= s[i] <= 'Z') && w[i] == LowerChar(s[i])
    ensures Folded(s) == w && Norm(s) == w
  {
    assert StripStart(s) == s;
    assert StripEnd(s) == s;
    assert Lower(s) == w;
    CollapseSpacesNoop(w);
    assert Quotes(w) == w;
    UndashNoop(w);
  }

  /** The first value found is "" or an option's value, whose trimmed text
      is then among the options' trimmed values. */
  lemma FirstValueIn(opts: seq<Opt>, p: Opt -> bool) returns (v: string)
    ensures v == FirstOr(opts, p, ValueOf, "")
    ensures v == "" || Trim(v) in Map(opts, (o: Opt) => Trim(o.value))
  {
    v := FirstOr(opts, p, ValueOf, "");
    if v != "" {
      var i :| 0 <= i < |opts| && v == ValueOf(opts[i]);
      assert Map(opts, (o: Opt) => Trim(o.value))[i] == Trim(v);
    }
  }

  // ------------------------------------------------------------ lookups

  /** A variant of the listing, with "" for a missing text. */
  datatype Node = Node(
    id: string, sku: string, imageUrl: string,
    productTitle: string, featuredImageUrl: string, firstImageUrl: string,
    options: seq<Opt>)

  datatype Item = Item(
    variantId: string, productTitle: string, color: string, size: string,
    sku: string, image: Option<string>)

  /** The first non-empty of the variant's image, the product's featured
      image and the product's first image; `null` (`None`) when all are
      missing. */
  function ImageOf(n: Node): (r: Option<string>)
    ensures r.Some? <==> n.imageUrl != "" || n.featuredImageUrl != "" || n.firstImageUrl != ""
    ensures n.imageUrl != "" ==> r == Some(n.imageUrl)
    ensures r.Some? ==> r.value in {n.imageUrl, n.featuredImageUrl, n.firstImageUrl}
  {
    if n.imageUrl != "" then Some(n.imageUrl)
    else if n.featuredImageUrl != "" then Some(n.featuredImageUrl)
    else if n.firstImageUrl != "" then Some(n.firstImageUrl)
    else None
  }

  /** The item of one listed variant; `None` when its id has no last path
      segment (the loop's `continue`). */
  function ItemOf(isSize: string -> bool, n: Node): (r: Option<Item>)
    ensures r.Some? <==> LastSegment(n.id, '/') != ""
    ensures r.Some? ==> r.value.variantId != "" && '/' !in r.value.variantId
    ensures r.Some? ==> IsTrimmed(r.value.productTitle) && IsTrimmed(r.value.sku)
    ensures r.Some? ==> IsTrimmed(r.value.color) && IsTrimmed(r.value.size)
  {
    var vid := LastSegment(n.id, '/');
    if vid == "" then None
    else
      TrimSpec(n.productTitle);
      TrimSpec(n.sku);
      var cs := InferColorSize(isSize, n.options);
      Some(Item(vid, Trim(n.productTitle), cs.color, cs.size, Trim(n.sku), ImageOf(n)))
  }

  /** A global id `gid://shopify/ProductVariant/<n>` yields the item `<n>`. */
  lemma ItemOfGid(isSize: string -> bool, prefix: string, n: string, node: Node)
    requires '/' !in n && n != "" && node.id == prefix + "/" + n
    ensures ItemOf(isSize, node).Some? && ItemOf(isSize, node).value.variantId == n
  {
    assert node.id == prefix + ['/'] + n;
    LastSegmentAfterSep(prefix, '/', n);
  }

  /** The items of the listing, in listing order. */
  function Items(isSize: string -> bool, nodes: seq<Node>): (r: seq<Item>)
    ensures forall i :: 0 <= i < |nodes| && ItemOf(isSize, nodes[i]).Some? ==> ItemOf(isSize, nodes[i]).value in r
    ensures forall it :: it in r ==> Some(it) in Map(nodes, (n: Node) => ItemOf(isSize, n))
  {
    Somes(Map(nodes, (n: Node) => ItemOf(isSize, n)))
  }

  /** A map from `key(x)` to the first element with that key: the
      `if (!m.has(k)) m.set(k, x)` loop. */
  function FirstWins<T>(xs: seq<T>, key: T -> string): (r: map<string, T>)
    ensures forall k :: k in r <==> k in Map(xs, key)
    ensures forall i :: (0 <= i < |xs| && forall j :: 0 <= j < i ==> key(xs[j]) != key(xs[i])) ==>
      key(xs[i]) in r && r[key(xs[i])] == xs[i]
  {
    if |xs| == 0 then map[]
    else
      var init := xs[..|xs| - 1];
      var x := xs[|xs| - 1];
      var m := FirstWins(init, key);
      assert xs == init + [x];
      FirstWinsStep(init, x, key, m);
      if key(x) in m then m else m[key(x) := x]
  }

  /** One more element: kept only when its key is new. */
  lemma FirstWinsStep<T>(init: seq<T>, x: T, key: T -> string, m: map<string, T>)
    requires forall k :: k in m <==> k in Map(init, key)
    requires forall i :: (0 <= i < |init| && forall j :: 0 <= j < i ==> key(init[j]) != key(init[i])) ==>
      key(init[i]) in m && m[key(init[i])] == init[i]
    ensures var xs, r := init + [x], if key(x) in m then m else m[key(x) := x];
      (forall k :: k in r <==> k in Map(xs, key))
      && (forall i :: (0 <= i < |xs| && forall j :: 0 <= j < i ==> key(xs[j]) != key(xs[i])) ==>
        key(xs[i]) in r && r[key(xs[i])] == xs[i])
  {
    var xs := init + [x];
    var r := if key(x) in m then m else m[key(x) := x];
    assert Map(xs, key) == Map(init, key) + [key(x)];
    forall i | 0 <= i < |xs| && (forall j :: 0 <= j < i ==> key(xs[j]) != key(xs[i]))
      ensures key(xs[i]) in r && r[key(xs[i])] == xs[i]
    {
      if i < |init| {
        assert xs[i] == init[i];
        assert forall j :: 0 <= j < i ==> xs[j] == init[j];
      } else {
        forall j | 0 <= j < |init|
          ensures Map(init, key)[j] != key(x)
        {
          assert xs[j] == init[j];
        }
        assert key(x) !in Map(init, key);
      }
    }
  }

  /** The title-key lookup keeps only items with a product title. */
  predicate Titled(it: Item) { it.productTitle != "" }

  function KeyOf(it: Item): string
  {
    MakeKey(it.productTitle, it.color, it.size)
  }

  function VariantIdOf(it: Item): string { it.variantId }

  datatype Lookup = Lookup(byKey: map<string, Item>, byVariantId: map<string, Item>)

  /** `fetchVariantLookup(shopDomain)` over the listing `nodes`, which stands
      for the concatenated pages the GraphQL query returns for the shop. */
  function VariantLookup(isSize: string -> bool, shopDomain: string, nodes: seq<Node>): (r: Result<Lookup>)
    ensures r.Err? <==> shopDomain == ""
    ensures r.Err? ==> r.error == "Missing shopDomain"
    ensures r.Ok? ==> forall k :: k in r.value.byVariantId <==> k in Map(Items(isSize, nodes), VariantIdOf)
    ensures r.Ok? ==> forall k :: k in r.value.byKey <==> k in Map(Filter(Items(isSize, nodes), Titled), KeyOf)
  {
    if shopDomain == "" then Err("Missing shopDomain")
    else
      var items := Items(isSize, nodes);
      Ok(Lookup(FirstWins(Filter(items, Titled), KeyOf), FirstWins(items, VariantIdOf)))
  }

  /** Each id and each key maps to the first listed item that has it. */
  lemma LookupFirstWins(isSize: string -> bool, shopDomain: string, nodes: seq<Node>, i: nat)
    requires shopDomain != ""
    ensures var items := Items(isSize, nodes); var r := VariantLookup(isSize, shopDomain, nodes).value;
      (i < |items| && forall j :: 0 <= j < i ==> items[j].variantId != items[i].variantId) ==>
        r.byVariantId[items[i].variantId] == items[i]
    ensures var titled := Filter(Items(isSize, nodes), Titled); var r := VariantLookup(isSize, shopDomain, nodes).value;
      (i < |titled| && forall j :: 0 <= j < i ==> KeyOf(titled[j]) != KeyOf(titled[i])) ==>
        r.byKey[KeyOf(titled[i])] == titled[i]
  {
  }
}
