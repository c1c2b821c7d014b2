/**
  Types shared by the mirror algorithm and its link plugin: the 32-bit
  unsigned integers of the host framework, the opaque frame word, the two
  link status codes, and the pixel formats the plugin distinguishes.
 */
module SysTypes {

  /** 2^32: the modulus of `UInt32` arithmetic. */
  const TWO_32: int := 0x1_0000_0000

  /** The framework's `UInt32`. */
  type UInt32 = x: int | 0 <= x < TWO_32

  /** One 32-bit word of a frame buffer; its pixel meaning is irrelevant to the flip. */
  type Word = bv32

  /** `SYSTEM_LINK_STATUS_SOK` and `SYSTEM_LINK_STATUS_EFAIL`. */
  datatype Status = Sok | Efail

  /**
    The channel data formats the plugin tells apart:
    `SYSTEM_DF_YUV422I_YUYV`, `SYSTEM_DF_YUV420SP_UV`, and every other code.
   */
  datatype DataFormat = Yuv422iYuyv | Yuv420spUv | OtherFormat(code: nat)
}
