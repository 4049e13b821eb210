/** Conversion of CLR type names, as they appear in generic arguments of
    migration calls, into the C# names shown in the schema grid. */
module TypeNames {
  import opened Text

  const NullablePrefix := "System.Nullable<"

  /** The fixed alias table: the short CLR name and its C# display name.
      Each short name is also accepted with a "System." qualifier. */
  const Aliases: seq<(string, string)> := [
    ("Int16", "short"),
    ("Int32", "int"),
    ("Int64", "long"),
    ("Boolean", "bool"),
    ("String", "string"),
    ("DateTime", "DateTime"),
    ("Decimal", "decimal"),
    ("Double", "double"),
    ("Single", "float"),
    ("Byte[]", "byte[]"),
    ("Guid", "Guid")
  ]

  /** `t` is one of the two spellings of alias entry i. */
  predicate NamesAlias(t: string, i: nat)
    requires i < |Aliases|
  {
    t == Aliases[i].0 || t == "System." + Aliases[i].0
  }

  /** The whole trimmed token is System.Nullable<...> around a non-empty inner
      part without a line feed (what the anchored wrapper pattern accepts). */
  predicate IsNullableWrapper(t: string) {
    |t| > |NullablePrefix| + 1
    && t[..|NullablePrefix|] == NullablePrefix
    && t[|t| - 1] == '>'
    && '\n' !in t[|NullablePrefix|..|t| - 1]
  }

  function NullableInner(t: string): (inner: string)
    requires IsNullableWrapper(t)
    ensures NullablePrefix + inner + ">" == t
  {
    t[|NullablePrefix|..|t| - 1]
  }

  /** The switch over the alias table, searching from entry i on. */
  function AliasFrom(t: string, i: nat): Option<string>
    requires i <= |Aliases|
    decreases |Aliases| - i
  {
    if i == |Aliases| then None
    else if NamesAlias(t, i) then Some(Aliases[i].1)
    else AliasFrom(t, i + 1)
  }

  /** The lookup fails exactly when no entry from i on names t, and succeeds
      with the C# name of an entry that does. */
  lemma {:induction false} AliasFromSpec(t: string, i: nat)
    requires i <= |Aliases|
    ensures AliasFrom(t, i).None? <==> forall j :: i <= j < |Aliases| ==> !NamesAlias(t, j)
    ensures AliasFrom(t, i).Some? ==> exists j :: i <= j < |Aliases| && NamesAlias(t, j) && AliasFrom(t, i).value == Aliases[j].1
    decreases |Aliases| - i
  {
    if i < |Aliases| && !NamesAlias(t, i) {
      AliasFromSpec(t, i + 1);
    }
  }

  /** ToCSharpTypeName: trims the token, unwraps System.Nullable<...> into a
      trailing '?', maps the alias table and passes anything else through.
      Every name it gives has no white space at either end. */
  function ToCSharpTypeName(clr: string): (r: string)
    ensures IsTrimmed(r)
    decreases |clr|
  {
    var t := Trim(clr);
    if IsNullableWrapper(t) then
      ToCSharpTypeName(NullableInner(t)) + "?"
    else
      match AliasFrom(t, 0)
      case Some(name) => AliasTrimmed(t); name
      case None => t
  }

  /** Surrounding white space never changes the normal form. */
  lemma {:induction false} ToCSharpTypeNameTrim(clr: string)
    ensures ToCSharpTypeName(clr) == ToCSharpTypeName(Trim(clr))
  {
    var t := Trim(clr);
    assert Trim(t) == t by { TrimIdempotent(clr); }
    if IsNullableWrapper(t) {
      assert ToCSharpTypeName(t) == ToCSharpTypeName(NullableInner(t)) + "?";
    } else {
      assert ToCSharpTypeName(t) == (match AliasFrom(t, 0) case Some(name) => name case None => t);
    }
  }

  /** A name the alias table gives is trimmed. */
  lemma AliasTrimmed(t: string)
    ensures AliasFrom(t, 0).Some? ==> IsTrimmed(AliasFrom(t, 0).value)
  {
    AliasFromSpec(t, 0);
    if AliasFrom(t, 0).Some? {
      var k :| 0 <= k < |Aliases| && NamesAlias(t, k) && AliasFrom(t, 0).value == Aliases[k].1;
      DisplayNameShape(k);
    }
  }

  /** The display names of the table are trimmed. */
  lemma DisplayNameShape(k: nat)
    requires k < |Aliases|
    ensures IsTrimmed(Aliases[k].1) && |Aliases[k].1| <= 8
  {
    if k == 0 {} else if k == 1 {} else if k == 2 {} else if k == 3 {} else if k == 4 {}
    else if k == 5 {} else if k == 6 {} else if k == 7 {} else if k == 8 {} else if k == 9 {} else {}
  }

  /** One unwrapping step on a trimmed wrapper token. */
  lemma UnwrapStep(t: string)
    requires Trim(t) == t && IsNullableWrapper(t)
    ensures ToCSharpTypeName(t) == ToCSharpTypeName(NullableInner(t)) + "?"
  {
  }

  /** One lookup step on a trimmed token that is not a wrapper. */
  lemma LookupStep(t: string)
    requires Trim(t) == t && !IsNullableWrapper(t)
    ensures ToCSharpTypeName(t) == if AliasFrom(t, 0).Some? then AliasFrom(t, 0).value else t
  {
  }

  lemma ResolvesTo(t: string, name: string)
    requires IsTrimmed(t) && |t| <= |NullablePrefix| && AliasFrom(t, 0) == Some(name)
    ensures ToCSharpTypeName(t) == name
  {
    TrimTrimmed(t);
    LookupStep(t);
  }

  lemma WrapperIsTrimmed(x: string, t: string)
    requires t == NullablePrefix + x + ">"
    ensures Trim(t) == t
  {
    assert t[0] == NullablePrefix[0];
    TrimTrimmed(t);
  }

  lemma WrapperInner(x: string, t: string)
    requires x != [] && '\n' !in x
    requires t == NullablePrefix + x + ">"
    ensures IsNullableWrapper(t) && NullableInner(t) == x
  {
    assert t[..|NullablePrefix|] == NullablePrefix;
    assert t[|NullablePrefix|..|t| - 1] == x;
  }

  /** Normalising System.Nullable<X> gives the normal form of X followed by '?'. */
  lemma NullableUnwraps(x: string)
    requires x != [] && '\n' !in x
    ensures ToCSharpTypeName(NullablePrefix + x + ">") == ToCSharpTypeName(x) + "?"
  {
    var t := NullablePrefix + x + ">";
    WrapperIsTrimmed(x, t);
    WrapperInner(x, t);
    UnwrapStep(t);
  }

  /** The short names of the alias table are pairwise different. */
  lemma ShortNamesDistinct(i: nat, j: nat)
    requires j < i < |Aliases|
    ensures Aliases[i].0 != Aliases[j].0
  {
    if i == 1 {} else if i == 2 {} else if i == 3 {} else if i == 4 {} else if i == 5 {}
    else if i == 6 {} else if i == 7 {} else if i == 8 {} else if i == 9 {} else {}
  }

  /** The lookup finds entry i when no earlier entry names t. */
  lemma {:induction false} AliasFound(t: string, i: nat, from: nat)
    requires from <= i < |Aliases| && NamesAlias(t, i)
    requires forall j :: from <= j < i ==> !NamesAlias(t, j)
    ensures AliasFrom(t, from) == Some(Aliases[i].1)
    decreases i - from
  {
    if from < i {
      AliasFound(t, i, from + 1);
    }
  }

  /** Every short name is a trimmed token of four to eight characters. */
  lemma ShortNameShape(i: nat)
    requires i < |Aliases|
    ensures 4 <= |Aliases[i].0| <= 8 && IsTrimmed(Aliases[i].0)
  {
    if i == 0 {} else if i == 1 {} else if i == 2 {} else if i == 3 {} else if i == 4 {}
    else if i == 5 {} else if i == 6 {} else if i == 7 {} else if i == 8 {} else if i == 9 {} else {}
  }

  /** No short name contains a line feed. */
  lemma ShortNameChars(i: nat)
    requires i < |Aliases|
    ensures '\n' !in Aliases[i].0
  {
    if i == 0 {} else if i == 1 {} else if i == 2 {} else if i == 3 {} else if i == 4 {}
    else if i == 5 {} else if i == 6 {} else if i == 7 {} else if i == 8 {} else if i == 9 {} else {}
  }

  lemma PrefixCancels(p: string, a: string, b: string)
    ensures p + a == p + b ==> a == b
  {
    if p + a == p + b {
      assert a == (p + a)[|p|..];
    }
  }

  /** Both spellings of every alias, T and System.T, give the same C# name. */
  lemma AliasesAgree(i: nat)
    requires i < |Aliases|
    ensures ToCSharpTypeName(Aliases[i].0) == Aliases[i].1
    ensures ToCSharpTypeName("System." + Aliases[i].0) == Aliases[i].1
  {
    var short, long := Aliases[i].0, "System." + Aliases[i].0;
    ShortNameShape(i);
    forall j | 0 <= j < i
      ensures !NamesAlias(short, j) && !NamesAlias(long, j)
    {
      ShortNamesDistinct(i, j);
      ShortNameShape(j);
      PrefixCancels("System.", Aliases[i].0, Aliases[j].0);
    }
    AliasFound(short, i, 0);
    AliasFound(long, i, 0);
    ResolvesTo(short, Aliases[i].1);
    ResolvesTo(long, Aliases[i].1);
  }

  /** Any other token is returned trimmed but otherwise unchanged. */
  lemma PassThrough(clr: string)
    requires !IsNullableWrapper(Trim(clr))
    requires forall i :: 0 <= i < |Aliases| ==> !NamesAlias(Trim(clr), i)
    ensures ToCSharpTypeName(clr) == Trim(clr)
  {
    AliasFromSpec(Trim(clr), 0);
  }

  /** A wrapped alias in either spelling, e.g. System.Nullable<System.Int32>,
      displays as the alias's C# name followed by '?'. */
  lemma NullableAlias(i: nat, qualified: bool)
    requires i < |Aliases|
    ensures var inner := if qualified then "System." + Aliases[i].0 else Aliases[i].0;
      ToCSharpTypeName(NullablePrefix + inner + ">") == Aliases[i].1 + "?"
  {
    var inner := if qualified then "System." + Aliases[i].0 else Aliases[i].0;
    ShortNameShape(i);
    assert '\n' !in inner by {
      forall k | 0 <= k < |inner| ensures inner[k] != '\n' {
        ShortNameChars(i);
        if qualified && k >= 7 {
          assert inner[k] == Aliases[i].0[k - 7];
        }
      }
    }
    NullableUnwraps(inner);
    AliasesAgree(i);
  }
}
