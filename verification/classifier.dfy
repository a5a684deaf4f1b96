/**
 * The programming-language field of an indexed page: a keyword search over
 * the page's code text and its whole content, in a fixed priority order.
 */
module Classifier {
  import opened JavaString

  /**
   * One rule: the name written to the field, the keyword searched for, and
   * whether only the code text is searched.
   */
  datatype Rule = Rule(name: string, needle: string, codeOnly: bool)

  /**
   * The rules in priority order.  `javascript` and `php` are common in
   * HTML forms, so only the code text is searched for them; `scala` is
   * searched with a space on each side.
   */
  const Rules: seq<Rule> := [
    Rule("javascript", "javascript", true),
    Rule("java", "java", false),
    Rule("c++", "c++", false),
    Rule("c#", "c#", false),
    Rule("ruby", "ruby", false),
    Rule("scala", " scala ", false),
    Rule("python", "python", false),
    Rule("sql", "sql", false),
    Rule("assembly", "assembly", false),
    Rule("pascal", "pascal", false),
    Rule("fortran", "fortran", false),
    Rule("php", "php", true),
    Rule("cuda", "cuda", false),
    Rule("latex", "latex", false),
    Rule("matlab", "matlab", false),
    Rule("opencl", "opencl", false),
    Rule("octave", "octave", false)
  ]

  /** A rule fires when its keyword is in the code, or in the content unless it is code-only. */
  predicate Fires(rule: Rule, code: string, content: string) {
    Contains(code, rule.needle) || (!rule.codeOnly && Contains(content, rule.needle))
  }

  /** The rules from position `i` on, first match wins; `""` when none fires. */
  function LabelFrom(code: string, content: string, i: nat): (pl: string)
    requires i <= |Rules|
    ensures pl == "" <==> forall j | i <= j < |Rules| :: !Fires(Rules[j], code, content)
    ensures pl != "" ==> exists j | i <= j < |Rules| ::
              pl == Rules[j].name && Fires(Rules[j], code, content)
              && forall q | i <= q < j :: !Fires(Rules[q], code, content)
    decreases |Rules| - i
  {
    if i == |Rules| then ""
    else if Fires(Rules[i], code, content) then Rules[i].name
    else LabelFrom(code, content, i + 1)
  }

  /**
   * The language of a page from its lower-cased code text and content: the
   * label of the first rule that fires, or the empty string.
   */
  function Language(code: string, content: string): (pl: string)
    ensures pl == "" <==> forall j | 0 <= j < |Rules| :: !Fires(Rules[j], code, content)
    ensures pl != "" ==> exists j | 0 <= j < |Rules| ::
              pl == Rules[j].name && Fires(Rules[j], code, content)
              && forall q | 0 <= q < j :: !Fires(Rules[q], code, content)
  {
    LabelFrom(code, content, 0)
  }

  /** Only the first rule is named `javascript`, and only the twelfth `php`. */
  lemma CodeOnlyNames()
    ensures forall j | 1 <= j < |Rules| :: Rules[j].name != "javascript"
    ensures forall j | 0 <= j < |Rules| && j != 11 :: Rules[j].name != "php"
  {
    forall j | 1 <= j < |Rules| ensures Rules[j].name != "javascript" {
      assert Rules[j].name[0] != 'j' || |Rules[j].name| == 4;
    }
    forall j | 0 <= j < |Rules| && j != 11 ensures Rules[j].name != "php" {
      assert Rules[j].name[0] != 'p' || |Rules[j].name| == 6;
    }
  }

  /** The code-only labels come from the code text alone. */
  lemma CodeOnlyLabels(code: string, content: string)
    ensures Language(code, content) == "javascript" ==> Contains(code, "javascript")
    ensures Language(code, content) == "php" ==> Contains(code, "php")
  {
    CodeOnlyNames();
    var pl := Language(code, content);
    if pl == "javascript" || pl == "php" {
      var j :| 0 <= j < |Rules| && pl == Rules[j].name && Fires(Rules[j], code, content);
      assert Rules[j].codeOnly;
    }
  }

  /**
   * The content alone never yields `javascript`: a content mentioning it
   * and code that does not is labelled `java`, whose keyword it contains.
   */
  lemma ContentJavascriptIsJava(code: string, content: string)
    requires Contains(content, "javascript") && !Contains(code, "javascript")
    ensures Language(code, content) == "java"
  {
    var i :| 0 <= i <= |content| - |"javascript"| && OccursAt(content, "javascript", i);
    assert content[i..i + 4] == content[i..i + 10][..4] == "java";
    assert OccursAt(content, "java", i);
    assert Fires(Rules[1], code, content);
    assert !Fires(Rules[0], code, content);
  }
}
