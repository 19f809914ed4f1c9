/** `ubpf_load` (tools/ubpf/vm/ubpf_vm.c): from a byte string to a validated program. */
module Loader {
  import opened Words
  import opened Ebpf
  import opened Validator
  import Encoding

  datatype LoadResult = Loaded(insts: seq<Inst>) | AlreadyLoaded | BadLength | Invalid(why: Reason)

  function Load(hasCode: bool, ext: set<int>, code: seq<u8>): LoadResult {
    if hasCode then AlreadyLoaded
    else if |code| % 8 != 0 then BadLength
    else
      var insts := Encoding.DecodeAll(code);
      match ValidateSpec(ext, insts)
      case Accept => Loaded(insts)
      case Reject(why) => Invalid(why)
  }

  /** An encoded program loads exactly when it validates, and loads as itself. */
  lemma LoadEncoded(ext: set<int>, insts: seq<Inst>)
    ensures Valid(ext, insts) <==> Load(false, ext, Encoding.EncodeAll(insts)) == Loaded(insts)
  {
    hide ValidateSpec, Encoding.DecodeAll, Encoding.EncodeAll;
    Encoding.DecodeEncodeAll(insts);
  }

  /** A byte string loads as a program exactly when nothing is loaded yet, it is the
      encoding of that program, and the program validates. */
  lemma LoadIff(hasCode: bool, ext: set<int>, code: seq<u8>, insts: seq<Inst>)
    ensures Load(hasCode, ext, code) == Loaded(insts) <==>
            !hasCode && code == Encoding.EncodeAll(insts) && Valid(ext, insts)
    ensures Load(hasCode, ext, code) == AlreadyLoaded <==> hasCode
    ensures Load(hasCode, ext, code) == BadLength <==> !hasCode && |code| % 8 != 0
  {
    hide ValidateSpec, Encoding.DecodeAll, Encoding.EncodeAll;
    Encoding.DecodeEncodeAll(insts);
    if |code| % 8 == 0 {
      Encoding.EncodeDecodeAll(code);
    }
  }
}
