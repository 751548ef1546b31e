/** Parsing Itanium-mangled nested names, and printing as its inverse. Strings have no newline. */
module ItaniumNames {
  import opened Wrappers

  /** A result, the "cannot handle it" value, or the exception for expressions. */
  datatype Outcome<T> = Ok(value: T) | Failed | TooComplex

  // ----- Regular expressions -----

  predicate IsDigit(c: char) { '0' <= c <= '9' }

  predicate IsCode(c: char) { IsDigit(c) || 'A' <= c <= 'Z' }

  function CountDigits(s: string): (n: nat)
    ensures n <= |s| && forall k | 0 <= k < n :: IsDigit(s[k])
    ensures n < |s| ==> !IsDigit(s[n])
  {
    if s == "" || !IsDigit(s[0]) then 0 else 1 + CountDigits(s[1..])
  }

  function CountCode(s: string): (n: nat)
    ensures n <= |s| && forall k | 0 <= k < n :: IsCode(s[k])
    ensures n < |s| ==> !IsCode(s[n])
  {
    if s == "" || !IsCode(s[0]) then 0 else 1 + CountCode(s[1..])
  }

  /** Up to the first E. */
  function CountNotE(s: string): (n: nat)
    ensures n <= |s| && 'E' !in s[..n] && (n < |s| ==> s[n] == 'E')
  {
    if s == "" || s[0] == 'E' then 0
    else
      var n := CountNotE(s[1..]);
      assert s[..n + 1] == [s[0]] + s[1..][..n];
      1 + n
  }

  function CountQualifiers(s: string): (n: nat)
    ensures n <= |s|
  {
    if s == "" || s[0] !in "rVKRO" then 0 else 1 + CountQualifiers(s[1..])
  }

  /** A greedy group of n characters that must leave one for what follows: if nothing is left
      behind the longest match, it gives one character back. */
  function SplitGreedy(s: string, n: nat, least: nat): (r: Option<(string, string)>)
    requires n <= |s|
    ensures r.Some? ==> r.value.0 + r.value.1 == s && |r.value.1| > 0 && |r.value.0| >= least
  {
    if n < |s| then (if n >= least then Some((s[..n], s[n..])) else None)
    else if n > least then Some((s[..n - 1], s[n - 1..]))
    else None
  }

  function ToInt(s: string): nat {
    if s == "" || !IsDigit(s[|s| - 1]) then 0 else 10 * ToInt(s[..|s| - 1]) + (s[|s| - 1] as int - '0' as int)
  }

  function Take(s: string, n: nat): string { if n <= |s| then s[..n] else s }

  function Drop(s: string, n: nat): string { if n <= |s| then s[n..] else "" }

  /** The text starts with a length: digits, and something behind them. */
  predicate StartsWithLength(s: string) { |s| >= 2 && IsDigit(s[0]) }

  /** How many digits the length has: all there are, but the last character is left over. */
  function LengthDigits(s: string): (k: nat)
    requires StartsWithLength(s)
    ensures 1 <= k < |s| && forall i | 0 <= i < k :: IsDigit(s[i])
    ensures k + 1 < |s| ==> !IsDigit(s[k])
  {
    if CountDigits(s) < |s| then CountDigits(s) else |s| - 1
  }

  /** A length, and as many characters as it says, or all there are. */
  function ParseNumbered(s: string): (r: Option<(string, string)>)
    ensures r.Some? <==> StartsWithLength(s)
    ensures r.Some? ==> r.value.0 + r.value.1 == s && r.value.0 != ""
    ensures r.Some? ==>
      var k := LengthDigits(s);
      |r.value.0| == if k + ToInt(s[..k]) <= |s| then k + ToInt(s[..k]) else |s|
  {
    var m := SplitGreedy(s, CountDigits(s), 1);
    if m.None? then None
    else
      var n := ToInt(m.value.0);
      assert Take(m.value.1, n) + Drop(m.value.1, n) == m.value.1;
      assert (m.value.0 + Take(m.value.1, n)) + Drop(m.value.1, n) == s;
      Some((m.value.0 + Take(m.value.1, n), Drop(m.value.1, n)))
  }

  /** A constructor or destructor name, and something behind it. */
  predicate StartsWithStructor(s: string) { |s| >= 3 && s[0] in "CD" && s[1] in "123" }

  /** A name at the start of a string, and the rest: a length and its characters, a constructor
      or destructor, or everything up to the first E, but for the last character. */
  function ParseName(s: string): (r: Option<(string, string)>)
    ensures r.Some? ==> r.value.0 + r.value.1 == s && r.value.0 != ""
    ensures r.Some? <==> |s| >= 2 && s[0] != 'E'
    ensures StartsWithLength(s) ==>
      var k := LengthDigits(s);
      |r.value.0| == if k + ToInt(s[..k]) <= |s| then k + ToInt(s[..k]) else |s|
    ensures !StartsWithLength(s) && StartsWithStructor(s) ==> |r.value.0| == 2
    ensures r.Some? && !StartsWithLength(s) && !StartsWithStructor(s) ==>
      'E' !in r.value.0 && r.value.1 != "" && (r.value.1[0] == 'E' || |r.value.1| == 1)
  {
    if ParseNumbered(s).Some? then ParseNumbered(s)
    else if StartsWithStructor(s) then Some((s[..2], s[2..]))
    else SplitGreedy(s, CountNotE(s), 1)
  }

  /** The string behind a substitution. */
  function SkipSubstitution(s: string): (r: Option<string>)
    ensures r.Some? ==> |r.value| < |s|
  {
    if s == "" || s[0] != 'S' then None
    else
      var k := 1 + CountCode(s[1..]);
      if k + 1 < |s| && s[k] == '_' then Some(s[k + 1..]) else None
  }

  // ----- The grammar the loops follow -----

  /** Skip template arguments up to their E. */
  function SkipArgs(s: string): (r: Outcome<string>)
    ensures r.Ok? ==> |r.value| < |s|
    decreases |s|
  {
    if s == "" then Failed
    else if ParseNumbered(s).Some? then
      assert |ParseNumbered(s).value.0 + ParseNumbered(s).value.1| == |s|;
      SkipArgs(ParseNumbered(s).value.1)
    else if SkipSubstitution(s).Some? then SkipArgs(SkipSubstitution(s).value)
    else if s[0] == 'I' then
      var inner := SkipArgs(s[1..]);
      if inner.Ok? then SkipArgs(inner.value) else inner
    else if s[0] == 'N' then
      var inner := Nested(s);
      if inner.Ok? then SkipArgs(inner.value.1) else if inner.Failed? then Failed else TooComplex
    else if s[0] == 'L' || s[0] == 'X' then TooComplex
    else if s[0] == 'E' then Ok(s[1..])
    else SkipArgs(s[1..])
  }

  type Names = seq<(string, bool)>

  /** The names of a nested name, each with whether it is a template, up to the closing E. */
  function Components(s: string): (r: Outcome<(Names, string)>)
    ensures r.Ok? ==> |r.value.1| < |s|
    decreases |s|
  {
    if s == "" then Failed
    else if s[0] == 'E' then Ok(([], s[1..]))
    else
      var m := ParseName(s);
      if m.None? then Failed
      else
        assert |m.value.0 + m.value.1| == |s|;
        var name, rest := m.value.0, m.value.1;
        var skipped := if rest != "" && rest[0] == 'I' then SkipArgs(rest[1..]) else Ok(rest);
        if !skipped.Ok? then (if skipped.Failed? then Failed else TooComplex)
        else
          var more := Components(skipped.value);
          if !more.Ok? then more
          else Ok(([(name, rest != "" && rest[0] == 'I')] + more.value.0, more.value.1))
  }

  /** What follows the N: an optional substitution, then qualifiers. */
  function SkipPrefix(s: string): (r: string)
    requires s != ""
    ensures |r| < |s|
  {
    var m := SkipSubstitution(s[1..]);
    var tmp := if m.Some? then m.value else s[1..];
    var q := SplitGreedy(tmp, CountQualifiers(tmp), 0);
    assert q.Some? ==> |q.value.0 + q.value.1| == |tmp|;
    if q.Some? then q.value.1 else tmp
  }

  function Nested(s: string): (r: Outcome<(Names, string)>)
    requires s != "" && s[0] == 'N'
    ensures r.Ok? ==> |r.value.1| < |s|
    decreases |s|, 0
  {
    Components(SkipPrefix(s))
  }

  // ----- The loops -----

  method SkipItaniumTemplate(arg: string) returns (r: Outcome<string>)
    requires arg != "" && arg[0] == 'I'
    ensures r == SkipArgs(arg[1..])
    decreases |arg|
  {
    var tmp := arg[1..];
    while tmp != ""
      invariant |tmp| < |arg| && SkipArgs(tmp) == SkipArgs(arg[1..])
      decreases |tmp|
    {
      var named := ParseNumbered(tmp);
      if named.Some? {
        assert |named.value.0 + named.value.1| == |tmp|;
        tmp := named.value.1;
        continue;
      }
      var substituted := SkipSubstitution(tmp);
      if substituted.Some? {
        tmp := substituted.value;
      } else if tmp[0] == 'I' {
        var inner := SkipItaniumTemplate(tmp);
        if !inner.Ok? {
          return inner;
        }
        tmp := inner.value;
      } else if tmp[0] == 'N' {
        var inner := ParseItaniumNestedName(tmp);
        if !inner.Ok? {
          return if inner.Failed? then Failed else TooComplex;
        }
        tmp := inner.value.1;
      } else if tmp[0] == 'L' || tmp[0] == 'X' {
        return TooComplex;
      } else if tmp[0] == 'E' {
        return Ok(tmp[1..]);
      } else {
        tmp := tmp[1..];
      }
    }
    r := Failed;
  }

  /** The names found so far in front of those still to come. */
  function Prepend(ret: Names, r: Outcome<(Names, string)>): Outcome<(Names, string)> {
    if r.Ok? then Ok((ret + r.value.0, r.value.1)) else r
  }

  method ParseItaniumNestedName(arg: string) returns (r: Outcome<(Names, string)>)
    requires arg != "" && arg[0] == 'N'
    ensures r == Nested(arg)
    decreases |arg|
  {
    var ret: Names := [];
    var tmp := SkipPrefix(arg);
    PrependNothing(Components(tmp));
    while tmp != ""
      invariant |tmp| < |arg| && Prepend(ret, Components(tmp)) == Nested(arg)
      decreases |tmp|
    {
      if tmp[0] == 'E' {
        assert ret + [] == ret;
        return Ok((ret, tmp[1..]));
      }
      var name := ParseName(tmp);
      if name.None? {
        return Failed;
      }
      assert |name.value.0 + name.value.1| == |tmp|;
      var rest, isTemplate := name.value.1, false;
      ghost var before := tmp;
      if rest != "" && rest[0] == 'I' {
        var skipped := SkipItaniumTemplate(rest);
        if !skipped.Ok? {
          return if skipped.Failed? then Failed else TooComplex;
        }
        tmp, isTemplate := skipped.value, true;
      } else {
        tmp := rest;
      }
      PrependOne(ret, (name.value.0, isTemplate), Components(tmp));
      ret := ret + [(name.value.0, isTemplate)];
    }
    r := Failed;
  }

  lemma PrependOne(ret: Names, one: (string, bool), r: Outcome<(Names, string)>)
    ensures Prepend(ret + [one], r) == Prepend(ret, Prepend([one], r))
  {
    if r.Ok? {
      assert ret + [one] + r.value.0 == ret + ([one] + r.value.0);
    }
  }

  lemma PrependNothing(r: Outcome<(Names, string)>)
    ensures Prepend([], r) == r
  {
    if r.Ok? {
      assert [] + r.value.0 == r.value.0;
    }
  }

  // ----- Printing -----

  /** An identifier, printed behind its length, or the tag of a constructor or destructor. */
  datatype Component = Ident(id: string) | Tag(letter: char, digit: char)

  datatype Arg =
    | NameArg(id: string)
    | SubstArg(code: string)
    | TypeArg(letter: char)
    | TemplateArg(args: Args)
    | NestedArg(parts: Parts)

  datatype Args = NoArgs | MoreArgs(head: Arg, tail: Args)

  datatype Parts = NoParts | MoreParts(name: Component, args: Option<Args>, tail: Parts)

  function Decimal(n: nat): string {
    if n < 10 then [('0' as int + n) as char] else Decimal(n / 10) + [('0' as int + n % 10) as char]
  }

  function PrintName(c: Component): string {
    match c
    case Ident(id) => Decimal(|id|) + id
    case Tag(letter, digit) => [letter, digit]
  }

  function PrintArg(a: Arg): string {
    match a
    case NameArg(id) => Decimal(|id|) + id
    case SubstArg(code) => "S" + code + "_"
    case TypeArg(letter) => [letter]
    case TemplateArg(args) => "I" + PrintArgs(args) + "E"
    case NestedArg(parts) => "N" + PrintParts(parts) + "E"
  }

  function PrintArgs(args: Args): string {
    match args
    case NoArgs => ""
    case MoreArgs(head, tail) => PrintArg(head) + PrintArgs(tail)
  }

  function PrintParts(parts: Parts): string {
    match parts
    case NoParts => ""
    case MoreParts(name, args, tail) =>
      PrintName(name) + (if args.Some? then "I" + PrintArgs(args.value) + "E" else "") + PrintParts(tail)
  }

  predicate IdentOk(id: string) { id != "" && !IsDigit(id[0]) }

  predicate NameOk(c: Component) {
    match c
    case Ident(id) => IdentOk(id)
    case Tag(letter, digit) => letter in "CD" && digit in "123"
  }

  /** Names, substitutions, nested templates and names, and type letters; no expressions. */
  predicate ArgOk(a: Arg) {
    match a
    case NameArg(id) => IdentOk(id)
    case SubstArg(code) => forall k | 0 <= k < |code| :: IsCode(code[k])
    case TypeArg(letter) => !IsDigit(letter) && letter !in "SINLXE"
    case TemplateArg(args) => ArgsOk(args)
    case NestedArg(parts) => PartsOk(parts)
  }

  predicate ArgsOk(args: Args) {
    match args
    case NoArgs => true
    case MoreArgs(head, tail) => ArgOk(head) && ArgsOk(tail)
  }

  predicate PartsOk(parts: Parts) {
    match parts
    case NoParts => true
    case MoreParts(name, args, tail) => NameOk(name) && (args.Some? ==> ArgsOk(args.value)) && PartsOk(tail)
  }

  /** What parsing should report. */
  function NamesOf(parts: Parts): Names {
    match parts
    case NoParts => []
    case MoreParts(name, args, tail) => [(PrintName(name), args.Some?)] + NamesOf(tail)
  }

  // ----- The round trip -----

  lemma {:induction false} DecimalToInt(n: nat)
    ensures Decimal(n) != "" && ToInt(Decimal(n)) == n && forall k | 0 <= k < |Decimal(n)| :: IsDigit(Decimal(n)[k])
  {
    if n >= 10 {
      DecimalToInt(n / 10);
      var d := Decimal(n);
      assert d[..|d| - 1] == Decimal(n / 10);
    } else {
      assert ToInt("") == 0;
      assert Decimal(n)[..0] == "";
    }
  }

  lemma {:induction false} CountDigitsOf(d: string, t: string)
    requires (forall k | 0 <= k < |d| :: IsDigit(d[k])) && (t != "" ==> !IsDigit(t[0]))
    ensures CountDigits(d + t) == |d|
  {
    if d == "" {
      assert d + t == t;
    } else {
      assert (d + t)[1..] == d[1..] + t;
      CountDigitsOf(d[1..], t);
    }
  }

  lemma {:induction false} CountCodeOf(d: string, t: string)
    requires (forall k | 0 <= k < |d| :: IsCode(d[k])) && (t != "" ==> !IsCode(t[0]))
    ensures CountCode(d + t) == |d|
  {
    if d == "" {
      assert d + t == t;
    } else {
      assert (d + t)[1..] == d[1..] + t;
      CountCodeOf(d[1..], t);
    }
  }

  /** A printed identifier is read back by its length, whatever characters it has. */
  lemma NumberedRoundTrip(id: string, t: string)
    requires IdentOk(id)
    ensures ParseNumbered(Decimal(|id|) + id + t) == Some((Decimal(|id|) + id, t))
  {
    var d := Decimal(|id|);
    DecimalToInt(|id|);
    CountDigitsOf(d, id + t);
    assert d + id + t == d + (id + t);
    assert (d + (id + t))[..|d|] == d && (d + (id + t))[|d|..] == id + t;
    assert (id + t)[..|id|] == id && (id + t)[|id|..] == t;
  }

  lemma NameRoundTrip(c: Component, t: string)
    requires NameOk(c) && t != ""
    ensures ParseName(PrintName(c) + t) == Some((PrintName(c), t))
  {
    match c
    case Ident(id) =>
      NumberedRoundTrip(id, t);
    case Tag(letter, digit) =>
      var s := PrintName(c) + t;
      assert s[..2] == PrintName(c) && s[2..] == t;
      assert CountDigits(s) == 0;
  }

  lemma SubstRoundTrip(code: string, t: string)
    requires (forall k | 0 <= k < |code| :: IsCode(code[k])) && t != ""
    ensures ParseNumbered("S" + code + "_" + t).None? && SkipSubstitution("S" + code + "_" + t) == Some(t)
  {
    var s := "S" + code + "_" + t;
    CountCodeOf(code, "_" + t);
    assert s[1..] == code + ("_" + t);
    assert s[|code| + 2..] == t;
    assert CountDigits(s) == 0;
  }

  /** The closing E and the rest behind a printed list. */
  function Closed(printed: string, rest: string): string { printed + "E" + rest }

  /** A printed list of names starts with a digit, a tag letter or, when empty, its closing E. */
  lemma PartsStart(parts: Parts, rest: string)
    requires PartsOk(parts)
    ensures var s := Closed(PrintParts(parts), rest);
      s != "" && (IsDigit(s[0]) || s[0] in "CDE") && (parts.MoreParts? ==> s[0] != 'E')
  {
    if parts.MoreParts? {
      if parts.name.Ident? {
        DecimalToInt(|parts.name.id|);
      }
      assert PrintParts(parts)[0] == PrintName(parts.name)[0];
    }
  }

  lemma NotNumbered(s: string)
    requires s != "" && !IsDigit(s[0])
    ensures ParseNumbered(s).None?
  {
  }

  lemma {:induction false} ArgsRoundTrip(args: Args, rest: string)
    requires ArgsOk(args)
    ensures SkipArgs(Closed(PrintArgs(args), rest)) == Ok(rest)
    decreases args, 1
  {
    match args
    case NoArgs =>
      assert Closed(PrintArgs(args), rest) == "E" + rest;
      NotNumbered("E" + rest);
    case MoreArgs(head, tail) =>
      var t := Closed(PrintArgs(tail), rest);
      assert Closed(PrintArgs(args), rest) == PrintArg(head) + t;
      ArgSkipped(head, t);
      ArgsRoundTrip(tail, rest);
  }

  lemma SimpleSkipped(a: Arg, t: string)
    requires ArgOk(a) && t != "" && !a.TemplateArg? && !a.NestedArg?
    ensures SkipArgs(PrintArg(a) + t) == SkipArgs(t)
  {
    match a
    case NameArg(id) =>
      NumberedRoundTrip(id, t);
      DecimalToInt(|id|);
    case SubstArg(code) =>
      SubstRoundTrip(code, t);
    case TypeArg(letter) =>
      NotNumbered(PrintArg(a) + t);
      assert (PrintArg(a) + t)[1..] == t;
  }

  lemma TemplateSkipped(args: string, t: string)
    requires SkipArgs(Closed(args, t)) == Ok(t)
    ensures SkipArgs("I" + args + "E" + t) == SkipArgs(t)
  {
    var s := "I" + args + "E" + t;
    NotNumbered(s);
    assert s[1..] == Closed(args, t);
  }

  lemma NestedSkipped(parts: string, names: Names, t: string)
    requires Nested("N" + Closed(parts, t)) == Ok((names, t))
    ensures SkipArgs("N" + parts + "E" + t) == SkipArgs(t)
  {
    hide Nested;
    var s := "N" + parts + "E" + t;
    NotNumbered(s);
    assert s == "N" + Closed(parts, t);
  }

  lemma {:induction false} ArgSkipped(a: Arg, t: string)
    requires ArgOk(a) && t != ""
    ensures SkipArgs(PrintArg(a) + t) == SkipArgs(t)
    decreases a, 0
  {
    hide SkipArgs, Nested, Closed;
    match a
    case NameArg(_) =>
      SimpleSkipped(a, t);
    case SubstArg(_) =>
      SimpleSkipped(a, t);
    case TypeArg(_) =>
      SimpleSkipped(a, t);
    case TemplateArg(args) =>
      ArgsRoundTrip(args, t);
      TemplateSkipped(PrintArgs(args), t);
    case NestedArg(parts) =>
      NestedRoundTrip(parts, t);
      NestedSkipped(PrintParts(parts), NamesOf(parts), t);
  }

  lemma NameStart(c: Component)
    requires NameOk(c)
    ensures PrintName(c) != "" && PrintName(c)[0] != 'E'
  {
    if c.Ident? {
      DecimalToInt(|c.id|);
    }
  }

  lemma PlainName(c: Component, t: string, names: Names, rest: string)
    requires NameOk(c) && t != "" && t[0] != 'I' && Components(t) == Ok((names, rest))
    ensures Components(PrintName(c) + t) == Ok(([(PrintName(c), false)] + names, rest))
  {
    hide PrintName, ParseName;
    NameStart(c);
    NameRoundTrip(c, t);
  }

  lemma TemplateName(c: Component, args: string, t: string, names: Names, rest: string)
    requires NameOk(c) && SkipArgs(Closed(args, t)) == Ok(t) && Components(t) == Ok((names, rest))
    ensures Components(PrintName(c) + ("I" + args + "E" + t)) == Ok(([(PrintName(c), true)] + names, rest))
  {
    hide PrintName, ParseName, SkipArgs;
    NameStart(c);
    NameRoundTrip(c, "I" + args + "E" + t);
    assert ("I" + args + "E" + t)[1..] == Closed(args, t);
  }

  lemma ClosedNothing(rest: string)
    ensures Components(Closed("", rest)) == Ok(([], rest))
  {
    assert Closed("", rest) == "E" + rest;
  }

  lemma ClosedPlain(name: string, tail: string, rest: string)
    ensures Closed(name + "" + tail, rest) == name + Closed(tail, rest)
  {
    assert name + "" == name;
    assert name + tail + "E" + rest == name + (tail + "E" + rest);
  }

  lemma ClosedTemplate(name: string, args: string, tail: string, rest: string)
    ensures Closed(name + ("I" + args + "E") + tail, rest) == name + ("I" + args + "E" + Closed(tail, rest))
  {
    var i := "I" + args + "E";
    assert name + i + tail + "E" + rest == name + (i + (tail + "E" + rest));
  }

  lemma {:induction false} PartsRoundTrip(parts: Parts, rest: string)
    requires PartsOk(parts)
    ensures Components(Closed(PrintParts(parts), rest)) == Ok((NamesOf(parts), rest))
    decreases parts, 0
  {
    hide Components, SkipArgs, PrintName, PrintArgs, Closed;
    match parts
    case NoParts =>
      ClosedNothing(rest);
    case MoreParts(name, args, tail) =>
      var t := Closed(PrintParts(tail), rest);
      PartsStart(tail, rest);
      PartsRoundTrip(tail, rest);
      if args.Some? {
        ArgsRoundTrip(args.value, t);
        TemplateName(name, PrintArgs(args.value), t, NamesOf(tail), rest);
        ClosedTemplate(PrintName(name), PrintArgs(args.value), PrintParts(tail), rest);
      } else {
        PlainName(name, t, NamesOf(tail), rest);
        ClosedPlain(PrintName(name), PrintParts(tail), rest);
      }
  }

  /** Printing a nested name and parsing it returns its names, and what followed it untouched. */
  lemma {:induction false} NestedRoundTrip(parts: Parts, rest: string)
    requires PartsOk(parts)
    ensures Nested("N" + Closed(PrintParts(parts), rest)) == Ok((NamesOf(parts), rest))
    decreases parts, 1
  {
    var tmp := Closed(PrintParts(parts), rest);
    var s := "N" + tmp;
    assert s[1..] == tmp;
    PartsStart(parts, rest);
    assert SkipSubstitution(tmp).None? && CountQualifiers(tmp) == 0;
    assert tmp[0..] == tmp;
    PartsRoundTrip(parts, rest);
  }

  // ----- What cannot be handled -----

  /** A result that is something ends behind an E of the string, and only a string with the L or
      X of an expression is too complex. */
  ghost predicate Justified(s: string, ok: bool, complex: bool, rest: string) {
    && (ok ==> exists k :: 0 <= k < |s| && s[k] == 'E' && rest == s[k + 1..])
    && (complex ==> 'L' in s || 'X' in s)
  }

  ghost predicate SkipJustified(s: string, o: Outcome<string>) {
    Justified(s, o.Ok?, o.TooComplex?, if o.Ok? then o.value else "")
  }

  ghost predicate NamesJustified(s: string, o: Outcome<(Names, string)>) {
    Justified(s, o.Ok?, o.TooComplex?, if o.Ok? then o.value.1 else "")
  }

  ghost predicate IsSuffix(s: string, t: string) { |t| <= |s| && t == s[|s| - |t|..] }

  lemma SuffixJustifies(s: string, t: string, ok: bool, complex: bool, rest: string)
    requires IsSuffix(s, t) && Justified(t, ok, complex, rest)
    ensures Justified(s, ok, complex, rest)
  {
    var n := |s| - |t|;
    if ok {
      var k :| 0 <= k < |t| && t[k] == 'E' && rest == t[k + 1..];
      assert s[n + k] == 'E' && s[n + k + 1..] == rest;
    }
  }

  /** What follows something recognised. */
  lemma Behind(a: string, b: string, s: string)
    requires a + b == s
    ensures IsSuffix(s, b)
  {
  }

  lemma SuffixTrans(s: string, t: string, u: string)
    requires IsSuffix(s, t) && IsSuffix(t, u)
    ensures IsSuffix(s, u)
  {
  }

  lemma JustifiedRest(s: string, rest: string)
    requires Justified(s, true, false, rest)
    ensures IsSuffix(s, rest)
  {
  }

  lemma SubstitutionBehind(s: string)
    ensures SkipSubstitution(s).Some? ==> IsSuffix(s, SkipSubstitution(s).value)
  {
  }

  lemma OneBehind(s: string)
    requires s != ""
    ensures IsSuffix(s, s[1..])
  {
  }

  lemma PrefixBehind(s: string)
    requires s != ""
    ensures IsSuffix(s, SkipPrefix(s))
  {
    OneBehind(s);
    SubstitutionBehind(s[1..]);
    var m := SkipSubstitution(s[1..]);
    var tmp := if m.Some? then m.value else s[1..];
    SuffixTrans(s, s[1..], tmp);
    var q := SplitGreedy(tmp, CountQualifiers(tmp), 0);
    if q.Some? {
      Behind(q.value.0, q.value.1, tmp);
      SuffixTrans(s, tmp, q.value.1);
    }
  }

  /** On every string: skipping template arguments succeeds only up to an E, and gives up with
      the exception only if there is an L or X. */
  lemma {:induction false} SkipArgsJustified(s: string)
    ensures SkipJustified(s, SkipArgs(s))
    decreases |s|, 1
  {
    hide Nested, ParseNumbered, SkipSubstitution, Justified, IsSuffix;
    if s == "" {
      JustifiedFailure(s);
    } else if ParseNumbered(s).Some? {
      Behind(ParseNumbered(s).value.0, ParseNumbered(s).value.1, s);
      SkipBehind(s, ParseNumbered(s).value.1);
    } else if SkipSubstitution(s).Some? {
      SubstitutionBehind(s);
      SkipBehind(s, SkipSubstitution(s).value);
    } else if s[0] == 'I' {
      OneBehind(s);
      SkipBehind(s, s[1..]);
      var inner := SkipArgs(s[1..]);
      if inner.Ok? {
        JustifiedRest(s, inner.value);
        SkipBehind(s, inner.value);
      }
    } else if s[0] == 'N' {
      NestedJustified(s);
      var inner := Nested(s);
      if inner.Ok? {
        JustifiedRest(s, inner.value.1);
        SkipBehind(s, inner.value.1);
      }
      JustifiedFailure(s);
    } else {
      OneBehind(s);
      if s[0] == 'L' || s[0] == 'X' || s[0] == 'E' {
        JustifiedHere(s);
      } else {
        SkipBehind(s, s[1..]);
      }
    }
  }

  lemma JustifiedFailure(s: string)
    ensures Justified(s, false, false, "")
  {
  }

  lemma JustifiedHere(s: string)
    requires s != ""
    ensures s[0] == 'E' ==> Justified(s, true, false, s[1..])
    ensures s[0] == 'L' || s[0] == 'X' ==> Justified(s, false, true, "")
  {
  }

  lemma {:induction false} SkipBehind(s: string, t: string)
    requires IsSuffix(s, t) && |t| < |s|
    ensures SkipJustified(s, SkipArgs(t))
    decreases |t|, 2
  {
    hide SkipArgs, Justified;
    SkipArgsJustified(t);
    var o := SkipArgs(t);
    SuffixJustifies(s, t, o.Ok?, o.TooComplex?, if o.Ok? then o.value else "");
  }

  lemma {:induction false} NestedJustified(s: string)
    requires s != "" && s[0] == 'N'
    ensures NamesJustified(s, Nested(s))
    decreases |s|, 0
  {
    hide Components, Justified;
    PrefixBehind(s);
    ComponentsJustified(SkipPrefix(s));
    var o := Nested(s);
    SuffixJustifies(s, SkipPrefix(s), o.Ok?, o.TooComplex?, if o.Ok? then o.value.1 else "");
  }

  /** The same for the names of a nested name. */
  lemma {:induction false} ComponentsJustified(s: string)
    ensures NamesJustified(s, Components(s))
    decreases |s|
  {
    hide SkipArgs, ParseName, Justified, IsSuffix;
    JustifiedFailure(s);
    if s != "" && s[0] == 'E' {
      JustifiedHere(s);
    } else if s != "" && ParseName(s).Some? {
      var name, rest := ParseName(s).value.0, ParseName(s).value.1;
      assert |name + rest| == |s|;
      Behind(name, rest, s);
      var skipped := if rest != "" && rest[0] == 'I' then SkipArgs(rest[1..]) else Ok(rest);
      if rest != "" && rest[0] == 'I' {
        OneBehind(rest);
        SuffixTrans(s, rest, rest[1..]);
        SkipBehind(s, rest[1..]);
        if skipped.Ok? {
          JustifiedRest(s, skipped.value);
        }
      }
      if skipped.Ok? {
        ComponentsJustified(skipped.value);
        var o := Components(skipped.value);
        SuffixJustifies(s, skipped.value, o.Ok?, o.TooComplex?, if o.Ok? then o.value.1 else "");
      }
    }
  }

  /** An expression behind well-formed arguments cannot be handled. */
  lemma {:induction false} ExpressionRefused(args: Args, c: char, t: string)
    requires ArgsOk(args) && (c == 'L' || c == 'X')
    ensures SkipArgs(PrintArgs(args) + [c] + t) == TooComplex
    decreases args
  {
    hide PrintArg;
    match args
    case NoArgs =>
      assert PrintArgs(args) + [c] + t == [c] + t;
      NotNumbered([c] + t);
    case MoreArgs(head, tail) =>
      assert PrintArgs(args) + [c] + t == PrintArg(head) + (PrintArgs(tail) + [c] + t);
      ArgSkipped(head, PrintArgs(tail) + [c] + t);
      ExpressionRefused(tail, c, t);
  }

  /** A substitution and qualifiers in front of the names are passed over. */
  lemma {:induction false} PrefixPassed(code: Option<string>, qualifiers: string, parts: Parts, rest: string)
    requires PartsOk(parts) && (forall k | 0 <= k < |qualifiers| :: qualifiers[k] in "rVKRO")
    requires code.Some? ==> forall k | 0 <= k < |code.value| :: IsCode(code.value[k])
    ensures var prefix := if code.Some? then "S" + code.value + "_" else "";
      Nested("N" + prefix + (qualifiers + Closed(PrintParts(parts), rest))) == Ok((NamesOf(parts), rest))
  {
    hide Components, PrintParts, Closed, SkipPrefix;
    var names := Closed(PrintParts(parts), rest);
    var prefix := if code.Some? then "S" + code.value + "_" else "";
    PartsStart(parts, rest);
    if code.Some? {
      SubstRoundTrip(code.value, qualifiers + names);
    }
    PrefixSkipped(prefix, qualifiers, names);
    PartsRoundTrip(parts, rest);
  }

  lemma PrefixSkipped(prefix: string, qualifiers: string, names: string)
    requires (forall k | 0 <= k < |qualifiers| :: qualifiers[k] in "rVKRO")
    requires names != "" && names[0] !in "rVKRO" && names[0] != 'S'
    requires prefix == "" || SkipSubstitution(prefix + (qualifiers + names)) == Some(qualifiers + names)
    ensures SkipPrefix("N" + prefix + (qualifiers + names)) == names
  {
    hide SkipSubstitution;
    var s, t := "N" + prefix + (qualifiers + names), qualifiers + names;
    assert s[1..] == prefix + t;
    if prefix == "" {
      assert s[1..] == t;
      NoSubstitution(t);
    }
    QualifiersCounted(qualifiers, names);
    assert t[..|qualifiers|] == qualifiers && t[|qualifiers|..] == names;
  }

  lemma NoSubstitution(t: string)
    requires t != "" && t[0] != 'S'
    ensures SkipSubstitution(t).None?
  {
  }

  lemma {:induction false} QualifiersCounted(q: string, t: string)
    requires (forall k | 0 <= k < |q| :: q[k] in "rVKRO") && t != "" && t[0] !in "rVKRO"
    ensures CountQualifiers(q + t) == |q|
  {
    if q == "" {
      assert q + t == t;
    } else {
      assert (q + t)[1..] == q[1..] + t;
      QualifiersCounted(q[1..], t);
    }
  }
}
