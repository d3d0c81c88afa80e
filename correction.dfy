/** The record of how the binding slots of descriptor sets were split, for a
    consumer that keys its pipeline layout by (set, binding). */
module Correction {
  import opened Spirv

  /** What a slot now holds: the sampler half of a split combined image
      sampler, or the plain or comparison half of a split depth texture. */
  datatype CorrectionType = SplitCombined | SplitDrefRegular | SplitDrefComparison

  /** A descriptor set number and a binding number. */
  datatype SetBinding = SetBinding(descriptorSet: u32, binding: u32)

  /** One original binding and the corrections stamped on it, in order. */
  datatype CorrectionBinding = CorrectionBinding(binding: u32, corrections: seq<CorrectionType>)

  /** One descriptor set and its bindings, in ascending binding order. */
  datatype CorrectionSet = CorrectionSet(descriptorSet: u32, bindings: seq<CorrectionBinding>)

  datatype CorrectionMap = CorrectionMap(sets: seq<CorrectionSet>)
}
