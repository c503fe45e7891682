/** `BadCaseFinder` in `algorithm/find_bad.py`: bad cases are stored per target file in a
    folder named after the file's path, and one of them is printed back as a prompt
    section. */
module FindBad {
  import opened Text

  /** The folder name of a target file: backslashes become slashes, then every slash
      becomes a double underscore. */
  function NormalizeTargetName(targetFile: string): string {
    ReplaceAll(ReplaceAll(targetFile, "\\", "/"), "/", "__")
  }

  /** A folder name is a single path component: it holds no separator of either kind. */
  lemma NormalizedHasNoSeparator(targetFile: string)
    ensures '/' !in NormalizeTargetName(targetFile)
    ensures '\\' !in NormalizeTargetName(targetFile)
  {
    var slashed := ReplaceAll(targetFile, "\\", "/");
    ReplaceCharSpec(targetFile, '\\', "/", 'a');
    assert "/" == ['/'] && "__" == ['_', '_'] && "\\" == ['\\'];
    ReplaceCharSpec(slashed, '/', "__", '\\');
  }

  /** Normalizing a folder name again leaves it as it is. */
  lemma NormalizeIdempotent(targetFile: string)
    ensures NormalizeTargetName(NormalizeTargetName(targetFile)) == NormalizeTargetName(targetFile)
  {
    var name := NormalizeTargetName(targetFile);
    NormalizedHasNoSeparator(targetFile);
    assert "/" == ['/'] && "\\" == ['\\'];
    ReplaceAbsentChar(name, '\\', "/");
    ReplaceAbsentChar(name, '/', "__");
  }

  /** A path without separators is its own folder name. */
  lemma PlainNameKept(targetFile: string)
    requires '/' !in targetFile && '\\' !in targetFile
    ensures NormalizeTargetName(targetFile) == targetFile
  {
    assert "/" == ['/'] && "\\" == ['\\'];
    ReplaceAbsentChar(targetFile, '\\', "/");
    ReplaceAbsentChar(targetFile, '/', "__");
  }

  /** A stored bad case: the JSON object's fields as text. */
  type CaseData = map<string, string>

  /** `data.get(key, '')`. */
  function Field(data: CaseData, key: string): (v: string)
    ensures key !in data ==> v == ""
    ensures key in data ==> v == data[key]
  {
    if key in data then data[key] else ""
  }

  const Opening := "Previous programs generated from the earlier prompt did not meet the coverage goal for this file.\n"
  const InfoLine := "Here is some information:\n"
  const StatusLabel := "Compilation status:  "
  const OtherLabel := "Coverage improvements in other files: "
  const InFileLine := "Coverage was improved in other parts of this file:\n"
  const Closing := "This suggests that either (1) the stated requirements do not match the actual coverage targets, \nor (2) the generated program failed to trigger the relevant compilation options.\n"

  /** The printed bad case, built from the four fields of the stored record. */
  function FormatOutput(data: CaseData): string {
    Opening + Field(data, "prompt_base") + "\n"
      + Middle(data)
      + Field(data, "improved_in_file") + "\n"
      + Closing
  }

  /** The text between the prompt line and the last field. */
  function Middle(data: CaseData): string {
    InfoLine
      + StatusLabel + Field(data, "compilation_status") + "\n"
      + OtherLabel + Field(data, "improved_other_files") + "\n"
      + InFileLine
  }

  /** The output starts with the fixed opening sentence, the prompt can be read back right
      after it up to a newline, and the output ends with the last field and the fixed
      closing sentences. */
  lemma FormatOutputLayout(data: CaseData)
    ensures var out, pb := FormatOutput(data), Field(data, "prompt_base");
      |Opening| + |pb| < |out|
      && out[..|Opening|] == Opening
      && out[|Opening|..|Opening| + |pb|] == pb
      && out[|Opening| + |pb|] == '\n'
    ensures EndsWith(FormatOutput(data), Field(data, "improved_in_file") + "\n" + Closing)
  {
    var pb := Field(data, "prompt_base");
    var head := Opening + pb + "\n";
    var tail := Field(data, "improved_in_file") + "\n" + Closing;
    Joined(head, Middle(data), Field(data, "improved_in_file"), Closing);
    Parts(head, Middle(data), tail);
    assert head[..|Opening|] == Opening;
    assert head[|Opening|..|Opening| + |pb|] == pb;
  }

  lemma Joined(head: string, mid: string, last: string, closing: string)
    ensures head + mid + last + "\n" + closing == head + mid + (last + "\n" + closing)
  {
  }

  /** The three parts of a concatenation are where they are. */
  lemma Parts(a: string, b: string, c: string)
    ensures (a + b + c)[..|a|] == a
    ensures (a + b + c)[|a| + |b|..] == c
  {
  }

  /** A field the record lacks prints exactly as a field holding the empty text. */
  lemma MissingFieldIsEmpty(data: CaseData, key: string)
    requires key !in data
    ensures FormatOutput(data) == FormatOutput(data[key := ""])
  {
  }

  /** Fields other than the four named ones do not change the output. */
  lemma OtherFieldsIgnored(data: CaseData, key: string, v: string)
    requires key !in {"prompt_base", "compilation_status", "improved_other_files", "improved_in_file"}
    ensures FormatOutput(data[key := v]) == FormatOutput(data)
  {
    assert Field(data[key := v], "prompt_base") == Field(data, "prompt_base");
    assert Field(data[key := v], "compilation_status") == Field(data, "compilation_status");
    assert Field(data[key := v], "improved_other_files") == Field(data, "improved_other_files");
    assert Field(data[key := v], "improved_in_file") == Field(data, "improved_in_file");
  }

  /** What a lookup of a bad case gives: the printed case, or the reason there is none. */
  datatype Lookup = Printed(text: string) | FolderNotFound(folder: string) | NoCases(folder: string)

  /** `run`: the folder of the target file is looked up in the bad-case directory (given
      as a map from folder name to the records it holds) and one of its records, chosen
      by the random number `pick`, is printed. */
  function Run(badCases: map<string, seq<CaseData>>, targetFile: string, pick: nat): (r: Lookup)
    ensures r.Printed? <==> NormalizeTargetName(targetFile) in badCases
                            && |badCases[NormalizeTargetName(targetFile)]| > 0
    ensures r.Printed? ==> exists c :: c in badCases[NormalizeTargetName(targetFile)] && r.text == FormatOutput(c)
    ensures r.FolderNotFound? <==> NormalizeTargetName(targetFile) !in badCases
  {
    var folder := NormalizeTargetName(targetFile);
    if folder !in badCases then FolderNotFound(folder)
    else if |badCases[folder]| == 0 then NoCases(folder)
    else Printed(FormatOutput(badCases[folder][pick % |badCases[folder]|]))
  }
}
