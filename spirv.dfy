/** Machine words of a SPIR-V module and the constants the passes use.
    An instruction's first word packs its word count in the high half and its
    opcode in the low half. */
module Spirv {

  type u8 = x: int | 0 <= x < 0x100
  type u16 = x: int | 0 <= x < 0x1_0000
  type u32 = x: int | 0 <= x < 0x1_0000_0000

  const MaxU16: int := 0xFFFF
  const MaxU32: int := 0xFFFF_FFFF

  // Module header
  const HeaderLength: nat := 5
  const Magic: u32 := 0x0723_0203
  const MagicOffset: nat := 0
  const BoundOffset: nat := 3

  // Opcodes named in the source
  const OpTypeImage: u16 := 25
  const OpTypeSampler: u16 := 26
  const OpTypeSampledImage: u16 := 27
  const OpTypePointer: u16 := 32
  const OpTypeFunction: u16 := 33
  const OpFunctionParameter: u16 := 55
  const OpFunctionCall: u16 := 57
  const OpVariable: u16 := 59
  const OpLoad: u16 := 61
  const OpDecorate: u16 := 71
  const OpSampledImage: u16 := 86

  // Opcodes the passes use but src/lib.rs:8-18 does not define, with the
  // values of the Khronos SPIR-V specification
  const OpNop: u16 := 0
  const OpTypeVoid: u16 := 19
  const OpFunction: u16 := 54
  const OpAccessChain: u16 := 65
  const OpVectorExtractDynamic: u16 := 77
  // the float-to-integer conversion the arrayed rewrite emits: image_op.rs
  // names SPV_INSTRUCTION_OP_CONVERT_F_TO_I without defining it, and the
  // signed conversion, Khronos OpConvertFToS, is taken
  const OpConvertFToI: u16 := 110
  const OpImageSampleImplicitLod: u16 := 87
  const OpImageSampleExplicitLod: u16 := 88
  const OpImageSampleDrefImplicitLod: u16 := 89
  const OpImageSampleDrefExplicitLod: u16 := 90
  const OpImageSampleProjImplicitLod: u16 := 91
  const OpImageSampleProjExplicitLod: u16 := 92
  const OpImageSampleProjDrefImplicitLod: u16 := 93
  const OpImageSampleProjDrefExplicitLod: u16 := 94
  const OpImageGather: u16 := 96
  const OpImageDrefGather: u16 := 97
  const OpImageSparseSampleImplicitLod: u16 := 305
  const OpImageSparseSampleExplicitLod: u16 := 306
  const OpImageSparseSampleDrefImplicitLod: u16 := 307
  const OpImageSparseSampleDrefExplicitLod: u16 := 308
  const OpImageSparseGather: u16 := 314
  const OpImageSparseDrefGather: u16 := 315

  const StorageClassUniformConstant: u32 := 0
  const DecorationBinding: u32 := 33
  const DecorationDescriptorSet: u32 := 34

  /** The word count of an instruction's first word. */
  function HiWord(w: u32): u16 { w / 0x1_0000 }

  /** The opcode of an instruction's first word. */
  function LoWord(w: u32): u16 { w % 0x1_0000 }

  /** Packs a word count and an opcode; unpacking gives both back. */
  function EncodeWord(hi: u16, lo: u16): (w: u32)
    ensures HiWord(w) == hi && LoWord(w) == lo
  {
    hi * 0x1_0000 + lo
  }

  /** Every word is the packing of its two halves. */
  lemma EncodeHiLo(w: u32)
    ensures EncodeWord(HiWord(w), LoWord(w)) == w
  {
  }

  /** Two words agree exactly when both halves agree. */
  lemma HalvesDetermineWord(v: u32, w: u32)
    requires HiWord(v) == HiWord(w) && LoWord(v) == LoWord(w)
    ensures v == w
  {
    EncodeHiLo(v);
    EncodeHiLo(w);
  }

  /** A tombstone: the same word count, opcode OpNop. */
  function NopHead(w: u32): (r: u32)
    ensures HiWord(r) == HiWord(w) && LoWord(r) == OpNop
  {
    EncodeWord(HiWord(w), OpNop)
  }

  /** The one-word OpNop instruction. */
  const NopWord: u32 := EncodeWord(1, OpNop)

  /** Rust's `as i32` on a word: values from 2^31 on wrap to negative ones. */
  function AsI32(w: u32): (r: int)
    ensures -0x8000_0000 <= r < 0x8000_0000
    ensures r == w || r == w - 0x1_0000_0000
  {
    if w < 0x8000_0000 then w else w - 0x1_0000_0000
  }
}
