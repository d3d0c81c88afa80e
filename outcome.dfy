/** Option and Result values, and the failures the passes can end with.
    Each panic the model reaches (an `unwrap` on nothing, a failed
    `assert_eq`, a debug-mode overflow of a binding number or word count,
    an out-of-range `Vec::insert`) becomes one named `Error`.  Not every
    panic is reached: the passes require an id bound with room for every id
    they could draw and a module every instruction of which lies within
    the words, so an overflow of the id bound, a scan that spins on a zero
    word count and a read past the end are outside the model.  Two errors
    have no panic behind them: `NoProgress` stands for a walk that would
    spin forever, and `TraceTooDeep` for a call chain deeper than the depth
    the trace is given. */
module Outcome {

  datatype Option<T> = None | Some(value: T)

  datatype Error =
    | TruncatedHeader            // fewer than five header words
    | MagicMismatch              // word 0 is not the SPIR-V magic number
    | OddByteLength              // byte length not a multiple of four
    | MissingBinding             // a decorated id has no Binding decoration
    | MissingDescriptorSet       // a decorated id has no DescriptorSet decoration
    | MissingDecorate            // no OpDecorate to anchor new decorations
    | MissingTypeVoid            // no OpTypeVoid to anchor the sampler types
    | MissingTypeImage           // no OpTypeImage to anchor the sampler types
    | MissingArrayedSamplerPointer
    | MissingUnderlyingImagePointer
    | WordCountOverflow          // a word count would exceed 0xFFFF
    | BindingOverflow            // a binding number would exceed 0xFFFF_FFFF
    | BindingUnderflow           // a binding number would go below zero
    | IndexOverflow              // the offset -1 converted to an index and advanced
    | SetIndexOutOfRange         // indexing the correction sets by set number
    | SlotIndexOutOfRange        // inserting a correction past the end of its list
    | UnexpectedInstruction      // walking back from a parameter met neither kind
    | OffsetUnderflow            // walking back from a parameter went below zero
    | NoProgress                 // walking back met a zero word count and would spin forever
    | TraceTooDeep               // a call chain deeper than the depth the trace is given
    | OperandOutOfRange          // an operand read past the end of the words

  datatype Result<T> = Success(value: T) | Failure(error: Error)
}
