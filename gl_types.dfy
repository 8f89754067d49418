/** The OpenGL scalar types that the buffer manager stores. */
module GLTypes {
  /** GLuint: an unsigned 32-bit integer. Buffer names are GLuints; 0 is never a name OpenGL generates. */
  type GLuint = n: int | 0 <= n < 0x1_0000_0000

  /** GLenum: an unsigned 32-bit integer naming a primitive mode or a primitive type. */
  type GLenum = n: int | 0 <= n < 0x1_0000_0000

  /** GLsizei: a signed 32-bit integer, used for the primitive count. */
  type GLsizei = n: int | -0x8000_0000 <= n < 0x8000_0000
}
