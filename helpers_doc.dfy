/**
 * method_from_doc_code of app/Support/helpers.php: reading a method's
 * name, parameters and defaults from one line of a doc comment, such as
 * "x max(int $v = 1)".
 */
module DocCode {
  import opened Wrappers
  import opened StringOps

  /** One parameter: its name (without '$') and its default, null when it has none. */
  datatype Param = Param(name: string, default: Option<string>)

  /** The array the helper returns. */
  datatype DocMethod = DocMethod(name: string, params: seq<Param>, paramStr: string, full: string, raw: string)

  /**
   * The map callback: a part holding '$' gives the word after '$' and the
   * trimmed text after the first '='; any other part gives a placeholder
   * with an empty name.
   */
  function ParamOf(part: string): Param {
    if Contains(part, "$") then
      OccursIffSplits(part, "$");
      var afterDollar := Split(part, "$")[1];
      var eq := Split(afterDollar, "=");
      Param(Split(afterDollar, " ")[0], if |eq| == 1 then None else Some(Trim(eq[1])))
    else Param("", Some(""))
  }

  /** The collection's where('name', '!=', ''): the parameters with a name, in order. */
  function WhereNamed(ps: seq<Param>): (r: seq<Param>)
    ensures |r| <= |ps|
  {
    if ps == [] then []
    else (if ps[0].name != [] then [ps[0]] else []) + WhereNamed(ps[1..])
  }

  /** The parameters read from the comma-separated parts of the argument list. */
  function ParamsOf(parts: seq<string>): seq<Param> {
    WhereNamed(seq(|parts|, i requires 0 <= i < |parts| => ParamOf(parts[i])))
  }

  /** pluck('default')->join(', '): null defaults join as the empty string. */
  function DefaultsText(ps: seq<Param>): string {
    Join(seq(|ps|, i requires 0 <= i < |ps| => ps[i].default.GetOr("")), ", ")
  }

  /**
   * The array built from the text before the first '(' and the piece
   * after it: the last word of the former is the name, the latter up to
   * its first ')' is the argument list.
   */
  function Describe(before: string, after: string, raw: string): DocMethod {
    var args := Split(after, ")")[0] + ")";
    var words := Split(before, " ");
    var name := words[|words| - 1];
    var params := ParamsOf(Split(Replace(args, ")", ""), ","));
    DocMethod(name, params, DefaultsText(params), name + "(" + args, raw)
  }

  /**
   * method_from_doc_code. A line without '(' has no index 1 after the
   * explode, which raises; the model returns None there.
   */
  function MethodFromDocCode(line: string): Option<DocMethod> {
    var exploded := Split(line, "(");
    if |exploded| < 2 then None else Some(Describe(exploded[0], exploded[1], Trim(line)))
  }

  /** The helper answers exactly for the lines holding '('. */
  lemma DocCodeDefinedIff(line: string)
    ensures MethodFromDocCode(line).Some? <==> '(' in line
  {
    OccursIffSplits(line, "(");
    OccursChar(line, '(');
  }

  /** Filtering keeps only named parameters, each taken from the input. */
  lemma {:induction false} WhereNamedSound(ps: seq<Param>)
    ensures forall i :: 0 <= i < |WhereNamed(ps)| ==> WhereNamed(ps)[i].name != [] && WhereNamed(ps)[i] in ps
    decreases |ps|
  {
    if ps != [] {
      WhereNamedSound(ps[1..]);
      var head := if ps[0].name != [] then [ps[0]] else [];
      var r := WhereNamed(ps);
      assert r == head + WhereNamed(ps[1..]);
      forall i | 0 <= i < |r| ensures r[i].name != [] && r[i] in ps {
        if i >= |head| {
          assert r[i] == WhereNamed(ps[1..])[i - |head|];
          assert r[i] in ps[1..];
        }
      }
    }
  }

  /** Filtering changes nothing when every parameter already has a name. */
  lemma {:induction false} WhereNamedKeepsNamed(ps: seq<Param>)
    requires forall i :: 0 <= i < |ps| ==> ps[i].name != []
    ensures WhereNamed(ps) == ps
    decreases |ps|
  {
    if ps != [] {
      WhereNamedKeepsNamed(ps[1..]);
      assert ps == [ps[0]] + ps[1..];
    }
  }

  /** A parameter name never holds a space or a '$'. */
  lemma ParamNameClean(part: string)
    ensures ' ' !in ParamOf(part).name && '$' !in ParamOf(part).name
  {
    if Contains(part, "$") {
      OccursIffSplits(part, "$");
      var pieces := Split(part, "$");
      var afterDollar := pieces[1];
      SplitPiecesAvoidDelimiter(part, "$");
      assert afterDollar in pieces;
      NotOccursChar(afterDollar, '$');
      var words := Split(afterDollar, " ");
      SplitPiecesAvoidDelimiter(afterDollar, " ");
      assert words[0] in words;
      NotOccursChar(words[0], ' ');
      SplitFirstIsPrefix(afterDollar, " ");
      assert forall k :: 0 <= k < |words[0]| ==> words[0][k] == afterDollar[k];
    }
  }

  /** The callback on a part with exactly one '$': the name and default come from the text after it. */
  lemma ParamOfDollar(typ: string, after: string)
    requires '$' !in typ && '$' !in after
    ensures var eq := Split(after, "=");
      ParamOf(typ + "$" + after) ==
        Param(Split(after, " ")[0], if |eq| == 1 then None else Some(Trim(eq[1])))
  {
    var part := typ + "$" + after;
    assert part == typ + ['$'] + after;
    OccursChar(part, '$');
    SplitOnce(typ, '$', after);
  }

  /** A typed parameter without a default: "T $name" gives the name and a null default. */
  lemma ParamPlain(typ: string, nm: string)
    requires '$' !in typ && '$' !in nm && ' ' !in nm && '=' !in nm
    ensures ParamOf(typ + "$" + nm) == Param(nm, None)
  {
    ParamOfDollar(typ, nm);
    SplitWithoutChar(nm, ' ');
    SplitWithoutChar(nm, '=');
  }

  /** A parameter with a default: "T $name = d" gives the name and the trimmed d. */
  lemma ParamWithDefault(typ: string, nm: string, d: string)
    requires '$' !in typ && '$' !in nm && '$' !in d
    requires ' ' !in nm && '=' !in nm && '=' !in d
    ensures ParamOf(typ + "$" + nm + " = " + d) == Param(nm, Some(Trim(d)))
  {
    var after := nm + " = " + d;
    assert typ + "$" + nm + " = " + d == typ + "$" + after;
    assert '$' !in after;
    ParamOfDollar(typ, after);
    DefaultParts(nm, d);
    TrimLeadingSpace(d);
  }

  /** "name = d" splits into the name before the first space and the two sides of '='. */
  lemma DefaultParts(nm: string, d: string)
    requires ' ' !in nm && '=' !in nm && '=' !in d
    ensures Split(nm + " = " + d, " ")[0] == nm
    ensures Split(nm + " = " + d, "=") == [nm + " ", " " + d]
  {
    var after := nm + " = " + d;
    assert after == nm + [' '] + ("= " + d);
    SplitFirstPiece(nm, ' ', "= " + d);
    assert after == (nm + " ") + ['='] + (" " + d);
    SplitOnce(nm + " ", '=', " " + d);
  }

  /** The explode on '(' of a line whose head holds no '('. */
  lemma ExplodeOpen(head: string, tail: string)
    requires '(' !in head
    ensures var exploded := Split(head + "(" + tail, "(");
      |exploded| >= 2 && exploded[0] == head && exploded[1] == Split(tail, "(")[0]
  {
    assert head + "(" + tail == head + ['('] + tail;
    SplitAroundChar(head, '(', tail);
    SplitWithoutChar(head, '(');
  }

  /** The text between the first '(' and the first ')' is the argument list. */
  lemma ArgumentsUpToClose(args: string, rest: string)
    requires '(' !in args && ')' !in args
    ensures Split(Split(args + ")" + rest, "(")[0], ")")[0] == args
  {
    SplitFirstExtends(args + ")", '(', rest);
    var first := Split(rest, "(")[0];
    assert args + ")" + first == args + [')'] + first;
    SplitFirstPiece(args, ')', first);
  }

  /**
   * A signature line "ret name(args)rest", whose return part has no '(',
   * whose name is one word and whose arguments hold no parenthesis, gives
   * that name, the text up to the first ')' as full, and the parameters of
   * the comma-separated arguments.
   */
  lemma DocCodeSignature(ret: string, name: string, args: string, rest: string)
    requires '(' !in ret && ' ' !in name && '(' !in name && '(' !in args && ')' !in args
    ensures var line := ret + " " + name + "(" + args + ")" + rest;
      var params := ParamsOf(Split(args, ","));
      MethodFromDocCode(line) ==
        Some(DocMethod(name, params, DefaultsText(params), name + "(" + args + ")", Trim(line)))
  {
    var line := ret + " " + name + "(" + args + ")" + rest;
    ExplodeSignature(ret, name, args, rest);
    ArgumentsUpToClose(args, rest);
    SignatureWords(ret, name, args);
    DescribeLine(line, ret + " " + name, Split(args + ")" + rest, "(")[0], name, args);
  }

  /** MethodFromDocCode, given the pieces its explodes find. */
  lemma DescribeLine(line: string, before: string, after: string, name: string, args: string)
    requires var exploded := Split(line, "(");
      |exploded| >= 2 && exploded[0] == before && exploded[1] == after
    requires Split(after, ")")[0] == args
    requires var words := Split(before, " "); words[|words| - 1] == name
    requires Replace(args + ")", ")", "") == args
    ensures var params := ParamsOf(Split(args, ","));
      MethodFromDocCode(line) == Some(DocMethod(name, params, DefaultsText(params), name + "(" + args + ")", Trim(line)))
  {
    ExplodedLine(line, before, after);
    DescribeParts(before, after, Trim(line), name, args);
  }

  /** A line whose explode on '(' has the given first two pieces. */
  lemma ExplodedLine(line: string, before: string, after: string)
    requires var exploded := Split(line, "(");
      |exploded| >= 2 && exploded[0] == before && exploded[1] == after
    ensures MethodFromDocCode(line) == Some(Describe(before, after, Trim(line)))
  {
  }

  /** The pieces method_from_doc_code takes from a signature line. */
  lemma ExplodeSignature(ret: string, name: string, args: string, rest: string)
    requires '(' !in ret && '(' !in name
    ensures var exploded := Split(ret + " " + name + "(" + args + ")" + rest, "(");
      |exploded| >= 2 && exploded[0] == ret + " " + name && exploded[1] == Split(args + ")" + rest, "(")[0]
  {
    var head := ret + " " + name;
    var tail := args + ")" + rest;
    assert ret + " " + name + "(" + args + ")" + rest == head + "(" + tail;
    ExplodeOpen(head, tail);
  }

  /** The name is the last word before '(' and dropping ')' from "args)" leaves args. */
  lemma SignatureWords(ret: string, name: string, args: string)
    requires ' ' !in name && ')' !in args
    ensures var words := Split(ret + " " + name, " "); words[|words| - 1] == name
    ensures Replace(args + ")", ")", "") == args
  {
    assert ret + " " + name == ret + [' '] + name;
    SplitLastPiece(ret, ' ', name);
    DropFinalChar(args, ')');
  }

  /** Describe, given the argument list and the name it finds. */
  lemma DescribeParts(before: string, after: string, raw: string, name: string, args: string)
    requires Split(after, ")")[0] == args
    requires var words := Split(before, " "); words[|words| - 1] == name
    requires Replace(args + ")", ")", "") == args
    ensures var params := ParamsOf(Split(args, ","));
      Describe(before, after, raw) == DocMethod(name, params, DefaultsText(params), name + "(" + args + ")", raw)
  {
    assert name + "(" + (args + ")") == name + "(" + args + ")";
  }

  /** A part with no '$' yields nothing; a part with one named parameter yields that parameter. */
  lemma ParamsOfSingle(args: string)
    requires ',' !in args && ParamOf(args).name != []
    ensures ParamsOf(Split(args, ",")) == [ParamOf(args)]
  {
    SplitWithoutChar(args, ',');
    var ps := [ParamOf(args)];
    assert seq(1, i requires 0 <= i < 1 => ParamOf([args][i])) == ps;
    WhereNamedKeepsNamed(ps);
  }

  /**
   * A line declaring one parameter with a default, such as
   * "x max(int $v = 1)", gives the method name, that parameter with its
   * trimmed default, the default as param_str, and "name(...)" as full.
   */
  lemma DocCodeOneParam(ret: string, name: string, typ: string, v: string, d: string)
    requires '(' !in ret && ' ' !in name && '(' !in name
    requires '(' !in typ && ')' !in typ && ',' !in typ && '$' !in typ
    requires v != [] && '(' !in v && ')' !in v && ',' !in v && '$' !in v && ' ' !in v && '=' !in v
    requires '(' !in d && ')' !in d && ',' !in d && '$' !in d && '=' !in d
    ensures var args := typ + "$" + v + " = " + d;
      var line := ret + " " + name + "(" + args + ")";
      MethodFromDocCode(line) ==
        Some(DocMethod(name, [Param(v, Some(Trim(d)))], Trim(d), name + "(" + args + ")", Trim(line)))
  {
    var args := typ + "$" + v + " = " + d;
    var line := ret + " " + name + "(" + args + ")";
    assert '(' !in args && ')' !in args;
    assert line == ret + " " + name + "(" + args + ")" + "";
    DocCodeSignature(ret, name, args, "");
    OneParamArgs(typ, v, d);
  }

  /** The argument list "T $v = d" reads as the one parameter v with default d. */
  lemma OneParamArgs(typ: string, v: string, d: string)
    requires '(' !in typ && ')' !in typ && ',' !in typ && '$' !in typ
    requires v != [] && '(' !in v && ')' !in v && ',' !in v && '$' !in v && ' ' !in v && '=' !in v
    requires '(' !in d && ')' !in d && ',' !in d && '$' !in d && '=' !in d
    ensures ParamsOf(Split(typ + "$" + v + " = " + d, ",")) == [Param(v, Some(Trim(d)))]
    ensures DefaultsText([Param(v, Some(Trim(d)))]) == Trim(d)
  {
    var args := typ + "$" + v + " = " + d;
    assert ',' !in args;
    ParamWithDefault(typ, v, d);
    ParamsOfSingle(args);
    DefaultsSingle(Param(v, Some(Trim(d))));
  }

  lemma DefaultsSingle(p: Param)
    ensures DefaultsText([p]) == p.default.GetOr("")
  {
    assert seq(1, i requires 0 <= i < 1 => [p][i].default.GetOr("")) == [p.default.GetOr("")];
  }

  /**
   * The name is one word without '(' and every parameter that survives has
   * a non-empty name without spaces or '$'.
   */
  lemma DocCodeNames(line: string)
    requires '(' in line
    ensures var r := MethodFromDocCode(line);
      r.Some? && ' ' !in r.value.name && '(' !in r.value.name &&
      forall i :: 0 <= i < |r.value.params| ==>
        var p := r.value.params[i]; p.name != [] && ' ' !in p.name && '$' !in p.name
  {
    DocCodeDefinedIff(line);
    var exploded := Split(line, "(");
    SplitPiecesAvoidDelimiter(line, "(");
    assert exploded[0] in exploded;
    NotOccursChar(exploded[0], '(');
    LastWordClean(exploded[0]);
    var args := Split(exploded[1], ")")[0] + ")";
    ParamsOfClean(Split(Replace(args, ")", ""), ","));
  }

  /** The last word of a text without '(' has neither a space nor '('. */
  lemma LastWordClean(before: string)
    requires '(' !in before
    ensures var words := Split(before, " "); ' ' !in words[|words| - 1] && '(' !in words[|words| - 1]
  {
    var words := Split(before, " ");
    var name := words[|words| - 1];
    assert name in words;
    SplitPiecesAvoidDelimiter(before, " ");
    NotOccursChar(name, ' ');
    SplitPiecesWithin(before, " ", '(');
  }

  /** Every parameter read has a non-empty name without spaces or '$'. */
  lemma ParamsOfClean(parts: seq<string>)
    ensures forall i :: 0 <= i < |ParamsOf(parts)| ==>
      var p := ParamsOf(parts)[i]; p.name != [] && ' ' !in p.name && '$' !in p.name
  {
    var mapped := seq(|parts|, k requires 0 <= k < |parts| => ParamOf(parts[k]));
    WhereNamedSound(mapped);
    forall k | 0 <= k < |parts| ensures ' ' !in mapped[k].name && '$' !in mapped[k].name {
      ParamNameClean(parts[k]);
    }
    forall i | 0 <= i < |ParamsOf(parts)| ensures ' ' !in ParamsOf(parts)[i].name && '$' !in ParamsOf(parts)[i].name {
      var p := ParamsOf(parts)[i];
      assert p in mapped;
      var k :| 0 <= k < |mapped| && mapped[k] == p;
    }
  }
}
