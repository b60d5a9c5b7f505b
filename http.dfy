/**
 * The JSON responses of the authentication routes: a status code and a body.
 * `Message` and `Error` are `{"message": text}` and `{"error": text}`; the
 * texts are the routes' own.
 */
module Http {
  import opened Users

  datatype Body =
    | Message(text: string)
    | Error(text: string)
    | Registered(userId: int)                    // "User registered successfully" with "user_id"
    | LoggedIn(accessToken: string, refreshToken: string, user: PublicUser)  // "Login successful"
    | NewAccessToken(accessToken: string)        // {"access_token": ...}
    | ServerError                                // Flask's page for an unhandled exception

  datatype Response = Response(status: int, body: Body)

  // token_required
  const InvalidTokenFormat := Response(403, Message("Invalid token format!"))
  const TokenMissing := Response(403, Message("Token is missing!"))
  const TokenRevoked := Response(401, Message("Token has been revoked!"))
  const TokenExpired := Response(401, Message("Token has expired!"))
  const InvalidToken := Response(403, Message("Invalid token!"))
  const TokenUserNotFound := Response(404, Message("User not found!"))

  // register
  const MissingFields := Response(400, Error("Missing required fields"))
  const InvalidEmailFormat := Response(400, Error("Invalid email format"))
  const WeakPassword := Response(400, Error("Password must be at least 8 characters long, include an uppercase letter, a lowercase letter, a number, and a special character"))
  const EmailInUse := Response(400, Error("Email already in use"))

  // login and logout
  const CredentialsRequired := Response(400, Error("Email and password are required"))
  const InvalidCredentials := Response(401, Error("Invalid email or password"))
  const LoggedOut := Response(200, Message("Successfully logged out"))

  // refresh
  const RefreshTokenRequired := Response(400, Error("Refresh token is required"))
  const RefreshTokenRevoked := Response(401, Message("Refresh token has been revoked!"))
  const UserNotFound := Response(404, Error("User not found"))
  const RefreshTokenExpired := Response(401, Error("Refresh token has expired"))
  const InvalidRefreshToken := Response(403, Error("Invalid refresh token"))

  // forgot_password and reset_password
  const EmailRequired := Response(400, Error("Email is required"))
  const ResetEmailSent := Response(200, Message("Password reset email sent"))
  const PasswordRequired := Response(400, Error("Password is required"))
  const ResetTokenExpired := Response(400, Error("Token has expired"))
  const InvalidResetToken := Response(400, Error("Invalid token"))
  const PasswordResetDone := Response(200, Message("Password reset successful"))

  // reset_password_from_profile
  const PasswordsRequired := Response(400, Error("Current and new passwords are required"))
  const CurrentPasswordIncorrect := Response(401, Error("Current password is incorrect"))
  const PasswordUpdated := Response(200, Message("Password updated successfully"))

  const InternalServerError := Response(500, ServerError)
}
