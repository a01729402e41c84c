/// Option names of include/CLI++/ArgumentParser.hpp: the long-name check
/// `OptionBase::validateLongName`, and the name bookkeeping of `Option<T>`,
/// of the flag specialisation `Option<bool>` and of `PositionalArgument<T>`.
module ArgumentParser {
  import Detail

  /// `CLIException`: the message it carries.
  datatype CliException = CliException(msg: string)

  /// A value, or the exception that was thrown instead.
  datatype Result<T> = Success(value: T) | Failure(error: CliException)

  /// The exception `validateLongName` throws (its message is spelt this way).
  const EmptyName: CliException := CliException("empyt name")

  // ---------------------------------------------------------------------------
  // `validateLongName`
  // ---------------------------------------------------------------------------

  /// `find_first_not_of(' ')`, with `|s|` standing for `npos`.
  function FindFirstNotSpace(s: string): (i: nat)
    ensures i <= |s|
    ensures forall k :: 0 <= k < i ==> s[k] == ' '
    ensures i < |s| ==> s[i] != ' '
  {
    if s == [] || s[0] != ' ' then 0 else 1 + FindFirstNotSpace(s[1..])
  }

  /// `find_first_of(' ')`, with `|s|` standing for `npos`.
  function FindFirstSpace(s: string): (i: nat)
    ensures i <= |s|
    ensures forall k :: 0 <= k < i ==> s[k] != ' '
    ensures i < |s| ==> s[i] == ' '
  {
    if s == [] || s[0] == ' ' then 0 else 1 + FindFirstSpace(s[1..])
  }

  /// A name `validateLongName` accepts unchanged: non-empty, without `' '`.
  /// Only the space character counts; tabs and other white space may occur.
  predicate ValidName(n: string) {
    |n| > 0 && forall k :: 0 <= k < |n| ==> n[k] != ' '
  }

  /// `OptionBase::validateLongName`: the first space-separated word of the
  /// name; throws when there is none.
  function ValidateLongName(name: string): (r: Result<string>)
    ensures r.Failure? <==> forall k :: 0 <= k < |name| ==> name[k] == ' '
    ensures r.Failure? ==> r.error == EmptyName
    ensures r.Success? ==> ValidName(r.value)
    ensures r.Success? ==>
      var p := FindFirstNotSpace(name);
      && p + |r.value| <= |name|
      && name[p..p + |r.value|] == r.value
      && (p + |r.value| == |name| || name[p + |r.value|] == ' ')
  {
    var p := FindFirstNotSpace(name);
    if p >= |name| then Failure(EmptyName)
    else
      var rest := name[p..];
      var q := FindFirstSpace(rest);
      Success(rest[..q])
  }

  /// The result is determined by the layout of the name: leading spaces,
  /// then the word, then nothing or a space and anything.
  lemma ValidateLongNameExact(pad: string, word: string, rest: string)
    requires forall k :: 0 <= k < |pad| ==> pad[k] == ' '
    requires ValidName(word)
    requires rest == [] || rest[0] == ' '
    ensures ValidateLongName(pad + word + rest) == Success(word)
  {
    var name := pad + word + rest;
    assert name[|pad|] == word[0];
    assert FindFirstNotSpace(name) == |pad|;
    assert name[|pad|..] == word + rest;
    var q := FindFirstSpace(word + rest);
    assert q == |word| by {
      if |word| < |word + rest| {
        assert (word + rest)[|word|] == ' ';
      }
    }
    assert (word + rest)[..|word|] == word;
  }

  /// Validating a validated name changes nothing.
  lemma ValidateLongNameIdempotent(name: string)
    ensures ValidateLongName(name).Success? ==>
      ValidateLongName(ValidateLongName(name).value) == ValidateLongName(name)
  {
    if ValidateLongName(name).Success? {
      var v := ValidateLongName(name).value;
      assert v == [] + v + [];
      ValidateLongNameExact([], v, []);
    }
  }

  /// Only `' '` separates: a tab stays inside the name.
  lemma ValidateLongNameKeepsTabs()
    ensures ValidateLongName("  \tverbose\tx  y") == Success("\tverbose\tx")
  {
    assert "  \tverbose\tx  y" == "  " + "\tverbose\tx" + "  y";
    ValidateLongNameExact("  ", "\tverbose\tx", "  y");
  }

  /// The range-for of `checkName`: whether `n` is one of `names`.
  method FindLongName(names: seq<string>, n: string) returns (found: bool)
    ensures found <==> n in names
  {
    for i := 0 to |names|
      invariant n !in names[..i]
    {
      if names[i] == n {
        return true;
      }
    }
    assert names[..|names|] == names;
    return false;
  }

  // ---------------------------------------------------------------------------
  // `Option<T>`
  // ---------------------------------------------------------------------------

  /// `Option<T>` with the fields of `OptionBase` it inherits.
  class Option<T> {
    var value: T
    const shortName: char
    var longNames: seq<string>
    var isRequired: bool
    var desc: string

    /// At least one long name, and every long name validated.
    ghost predicate Valid()
      reads this
    {
      |longNames| > 0 && forall k :: 0 <= k < |longNames| ==> ValidName(longNames[k])
    }

    /// The constructor once the name is validated.
    constructor Init(name: string, shortName: char, defaultValue: T, desc: string)
      requires ValidName(name)
      ensures Valid() && longNames == [name]
      ensures this.shortName == shortName && value == defaultValue
      ensures !isRequired && this.desc == desc
    {
      value := defaultValue;
      this.shortName := shortName;
      longNames := [name];
      isRequired := false;
      this.desc := desc;
    }

    /// `Option(name, short_name, default_value, desc)`: throws unless the
    /// name holds a non-space character; keeps only its first word.
    static method Create(name: string, shortName: char, defaultValue: T, desc: string)
      returns (r: Result<Option<T>>)
      ensures r.Failure? <==> ValidateLongName(name).Failure?
      ensures r.Failure? ==> r.error == EmptyName
      ensures r.Success? ==>
        && fresh(r.value) && r.value.Valid()
        && r.value.longNames == [ValidateLongName(name).value]
        && r.value.shortName == shortName && r.value.value == defaultValue
        && !r.value.isRequired && r.value.desc == desc
    {
      var v := ValidateLongName(name);
      if v.Failure? {
        return Failure(v.error);
      }
      var o := new Option.Init(v.value, shortName, defaultValue, desc);
      return Success(o);
    }

    /// `name()`: the first long name.
    function Name(): (r: string)
      requires Valid()
      reads this
      ensures ValidName(r) && r in longNames
      ensures ValidateLongName(r) == Success(r)
    {
      ValidateLongNameIdentity(longNames[0]);
      longNames[0]
    }

    /// `checkName(name)`: whether `n` is one of the long names.
    method CheckName(n: string) returns (r: bool)
      ensures r <==> n in longNames
    {
      r := FindLongName(longNames, n);
    }

    /// `checkShortName(c)`: never true without a short name.
    function CheckShortName(c: char): (r: bool)
      reads this
      ensures shortName == Detail.NUL ==> !r
      ensures shortName != Detail.NUL ==> (r <==> c == shortName)
    {
      shortName != Detail.NUL && shortName == c
    }

    /// `addLongName(long_name)`: appends the validated name, or throws and
    /// changes nothing.
    method AddLongName(name: string) returns (r: Result<Option<T>>)
      requires Valid()
      modifies this
      ensures Valid()
      ensures var v := ValidateLongName(name);
        && (v.Success? ==> longNames == old(longNames) + [v.value] && r == Success(this))
        && (v.Failure? ==> longNames == old(longNames) && r == Failure(v.error))
      ensures Name() == old(Name())
      ensures value == old(value) && isRequired == old(isRequired) && desc == old(desc)
    {
      var v := ValidateLongName(name);
      if v.Failure? {
        return Failure(v.error);
      }
      longNames := longNames + [v.value];
      return Success(this);
    }

    /// `setRequired(is_required)`.
    method SetRequired(isRequired: bool) returns (r: Option<T>)
      modifies this
      ensures this.isRequired == isRequired && r == this
      ensures longNames == old(longNames) && value == old(value) && desc == old(desc)
    {
      this.isRequired := isRequired;
      r := this;
    }

    /// `setDescription(desc)`.
    method SetDescription(desc: string) returns (r: Option<T>)
      modifies this
      ensures this.desc == desc && r == this
      ensures longNames == old(longNames) && value == old(value) && isRequired == old(isRequired)
    {
      this.desc := desc;
      r := this;
    }
  }

  /// A valid name is its own validation.
  lemma ValidateLongNameIdentity(n: string)
    requires ValidName(n)
    ensures ValidateLongName(n) == Success(n)
  {
    assert n == [] + n + [];
    ValidateLongNameExact([], n, []);
  }

  // ---------------------------------------------------------------------------
  // `Option<bool>`: a flag
  // ---------------------------------------------------------------------------

  /// The `Option<bool>` specialisation, which adds `store_false`.
  class Flag {
    var value: bool
    var storeFalse: bool
    const shortName: char
    var longNames: seq<string>
    var isRequired: bool
    var desc: string

    ghost predicate Valid()
      reads this
    {
      |longNames| > 0 && forall k :: 0 <= k < |longNames| ==> ValidName(longNames[k])
    }

    /// The constructor once the name is validated.  `store_false` is not
    /// initialised by the constructor, so its value is left open.
    constructor Init(name: string, shortName: char, defaultValue: bool, desc: string)
      requires ValidName(name)
      ensures Valid() && longNames == [name]
      ensures this.shortName == shortName && value == defaultValue
      ensures !isRequired && this.desc == desc
    {
      value := defaultValue;
      storeFalse := *;
      this.shortName := shortName;
      longNames := [name];
      isRequired := false;
      this.desc := desc;
    }

    /// `Option<bool>(long_name, short_name, default_value, desc)`.
    static method Create(name: string, shortName: char, defaultValue: bool, desc: string)
      returns (r: Result<Flag>)
      ensures r.Failure? <==> ValidateLongName(name).Failure?
      ensures r.Failure? ==> r.error == EmptyName
      ensures r.Success? ==>
        && fresh(r.value) && r.value.Valid()
        && r.value.longNames == [ValidateLongName(name).value]
        && r.value.shortName == shortName && r.value.value == defaultValue
        && !r.value.isRequired && r.value.desc == desc
    {
      var v := ValidateLongName(name);
      if v.Failure? {
        return Failure(v.error);
      }
      var f := new Flag.Init(v.value, shortName, defaultValue, desc);
      return Success(f);
    }

    /// `name()`: the first long name.
    function Name(): (r: string)
      requires Valid()
      reads this
      ensures ValidName(r) && r in longNames
      ensures ValidateLongName(r) == Success(r)
    {
      ValidateLongNameIdentity(longNames[0]);
      longNames[0]
    }

    /// `checkName(name)`.
    method CheckName(n: string) returns (r: bool)
      ensures r <==> n in longNames
    {
      r := FindLongName(longNames, n);
    }

    /// `checkShortName(c)`.
    function CheckShortName(c: char): (r: bool)
      reads this
      ensures shortName == Detail.NUL ==> !r
      ensures shortName != Detail.NUL ==> (r <==> c == shortName)
    {
      shortName != Detail.NUL && shortName == c
    }

    /// `addLongName(long_name)`.
    method AddLongName(name: string) returns (r: Result<Flag>)
      requires Valid()
      modifies this
      ensures Valid()
      ensures var v := ValidateLongName(name);
        && (v.Success? ==> longNames == old(longNames) + [v.value] && r == Success(this))
        && (v.Failure? ==> longNames == old(longNames) && r == Failure(v.error))
      ensures Name() == old(Name())
      ensures value == old(value) && storeFalse == old(storeFalse)
      ensures isRequired == old(isRequired) && desc == old(desc)
    {
      var v := ValidateLongName(name);
      if v.Failure? {
        return Failure(v.error);
      }
      longNames := longNames + [v.value];
      return Success(this);
    }

    /// `setStoreFalse(store_false)`.
    method SetStoreFalse(storeFalse: bool) returns (r: Flag)
      modifies this
      ensures this.storeFalse == storeFalse && r == this
      ensures longNames == old(longNames) && value == old(value)
      ensures isRequired == old(isRequired) && desc == old(desc)
    {
      this.storeFalse := storeFalse;
      r := this;
    }

    /// `setRequired(is_required)`.
    method SetRequired(isRequired: bool) returns (r: Flag)
      modifies this
      ensures this.isRequired == isRequired && r == this
      ensures longNames == old(longNames) && value == old(value)
      ensures storeFalse == old(storeFalse) && desc == old(desc)
    {
      this.isRequired := isRequired;
      r := this;
    }

    /// `setDescription(desc)`.
    method SetDescription(desc: string) returns (r: Flag)
      modifies this
      ensures this.desc == desc && r == this
      ensures longNames == old(longNames) && value == old(value)
      ensures storeFalse == old(storeFalse) && isRequired == old(isRequired)
    {
      this.desc := desc;
      r := this;
    }
  }

  // ---------------------------------------------------------------------------
  // `PositionalArgument<T>`
  // ---------------------------------------------------------------------------

  /// `PositionalArgument<T>`: a single validated name.
  class PositionalArgument<T> {
    var value: T
    const argName: string
    var isRequired: bool
    var desc: string

    /// The name is a validated one.
    ghost predicate Valid()
      reads this
    {
      ValidName(argName)
    }

    /// The constructor once the name is validated.
    constructor Init(name: string, defaultValue: T, desc: string)
      requires ValidName(name)
      ensures Valid() && argName == name && value == defaultValue
      ensures !isRequired && this.desc == desc
    {
      value := defaultValue;
      argName := name;
      isRequired := false;
      this.desc := desc;
    }

    /// `PositionalArgument(name, default_value, desc)`.
    static method Create(name: string, defaultValue: T, desc: string)
      returns (r: Result<PositionalArgument<T>>)
      ensures r.Failure? <==> ValidateLongName(name).Failure?
      ensures r.Failure? ==> r.error == EmptyName
      ensures r.Success? ==>
        && fresh(r.value) && r.value.Valid() && r.value.argName == ValidateLongName(name).value
        && r.value.value == defaultValue && !r.value.isRequired && r.value.desc == desc
    {
      var v := ValidateLongName(name);
      if v.Failure? {
        return Failure(v.error);
      }
      var a := new PositionalArgument.Init(v.value, defaultValue, desc);
      return Success(a);
    }

    /// `name()`: the validated name, which `checkName` accepts.
    function Name(): (r: string)
      requires Valid()
      reads this
      ensures ValidName(r) && CheckName(r)
      ensures ValidateLongName(r) == Success(r)
    {
      ValidateLongNameIdentity(argName);
      argName
    }

    /// `checkName(name)`: the one name matches, and nothing else.
    function CheckName(n: string): (r: bool)
      reads this
      ensures r <==> n == argName
    {
      argName == n
    }

    /// `setRequired(is_required)`.
    method SetRequired(isRequired: bool) returns (r: PositionalArgument<T>)
      modifies this
      ensures this.isRequired == isRequired && r == this
      ensures value == old(value) && desc == old(desc)
      ensures old(Valid()) ==> Valid()
    {
      this.isRequired := isRequired;
      r := this;
    }

    /// `setDescription(desc)`.
    method SetDescription(desc: string) returns (r: PositionalArgument<T>)
      modifies this
      ensures this.desc == desc && r == this
      ensures value == old(value) && isRequired == old(isRequired)
      ensures old(Valid()) ==> Valid()
    {
      this.desc := desc;
      r := this;
    }
  }
}
