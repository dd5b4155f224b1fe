/**
 * Resolution of the `chromosomes` argument of compute_coverages: the text
 * 'all' stands for every chromosome of the sample table; anything else must
 * be a list whose every name occurs in the sample table.
 */
module Selection {
  import opened Wrappers
  import opened Sequences
  import opened Reads

  /** The dynamically typed argument: a string, a list of names, or a value of any other type. */
  datatype ChromosomeArg = Text(text: string) | NameList(names: seq<string>) | OtherValue

  datatype SelectionError =
    | NotAList                    // "`chromosomes` argument must be a list"
    | MissingInSample(chrom: string)  // "Chromosome ... does not exist in sample"

  /** pandas `unique`: the distinct values, in order of first appearance. */
  function Unique(s: seq<string>): (u: seq<string>)
    ensures NoDuplicates(u)
    ensures forall x :: x in u <==> x in s
    decreases |s|
  {
    if s == [] then []
    else
      var u := Unique(s[..|s| - 1]);
      if s[|s| - 1] in u then u else u + [s[|s| - 1]]
  }

  /** The first name of the list that has no row in the sample table, if any. */
  function FirstMissing(names: seq<string>, sample: seq<Read>): (m: Option<string>)
    ensures m.None? <==> forall c :: c in names ==> c in Chromosomes(sample)
    ensures m.Some? ==>
      exists i :: && 0 <= i < |names| && names[i] == m.value
                  && m.value !in Chromosomes(sample)
                  && forall j :: 0 <= j < i ==> names[j] in Chromosomes(sample)
    decreases |names|
  {
    if names == [] then None
    else if names[0] !in Chromosomes(sample) then Some(names[0])
    else
      var m := FirstMissing(names[1..], sample);
      if m.Some? then
        assert forall j :: 1 <= j < |names| ==> names[j] == names[1..][j - 1];
        m
      else
        assert forall c :: c in names ==> c == names[0] || c in names[1..];
        m
  }

  function SelectChromosomes(sample: seq<Read>, arg: ChromosomeArg): (r: Result<seq<string>, SelectionError>)
    // whatever is selected has rows in the sample table: a control-only chromosome is never processed
    ensures r.Ok? ==> forall c :: c in r.value ==> c in Chromosomes(sample)
    ensures arg == Text("all") ==>
      r.Ok? && NoDuplicates(r.value) && forall c :: c in Chromosomes(sample) ==> c in r.value
    ensures (arg.Text? && arg.text != "all") || arg.OtherValue? ==> r == Err(NotAList)
    ensures arg.NameList? ==>
      (r.Ok? <==> forall c :: c in arg.names ==> c in Chromosomes(sample))
      && (r.Ok? ==> r.value == arg.names)
      && (r.Err? ==> r.error.MissingInSample? && r.error.chrom in arg.names
                     && r.error.chrom !in Chromosomes(sample))
  {
    match arg
    case Text(t) => if t == "all" then Ok(Unique(Chromosomes(sample))) else Err(NotAList)
    case NameList(names) =>
      (match FirstMissing(names, sample)
       case None => Ok(names)
       case Some(c) => Err(MissingInSample(c)))
    case OtherValue => Err(NotAList)
  }
}
